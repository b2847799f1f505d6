/**
 * Configuration requests of one instance (config_backend.go): callers serialised by a mutex hand a request with its
 * private reply channel to one worker goroutine, by a send that does not block, and then block on the reply. The
 * protocol is modelled up to the STOP request.
 */
module ConfigWorker {
  import opened Wrappers

  /** Requests are numbered; a number stands for the reply channel made for the request. */
  type Request = nat

  datatype Caller = Idle | Holding | Blocked(request: Request)

  /** Away: on its way back to the receive at the head of its loop, where it also starts. */
  datatype Worker = Away | AtReceive | Working(request: Request) | Replying(request: Request)

  datatype State = State(callers: seq<Caller>, lock: Option<nat>, worker: Worker, next: Request,
    dropped: set<Request>, replied: seq<(Request, nat)>)

  datatype Action =
    | Lock(c: nat)
    | Offer(c: nat)      // select with default, then <-updatedResources
    | Unlock(c: nat)
    | Arrive             // the worker reaches its receive
    | Apply              // the worker has applied the request
    | Reply(c: nat)      // the rendezvous on the private channel

  function Initial(n: nat): State {
    State(seq(n, _ => Idle), None, Away, 0, {}, [])
  }

  predicate Enabled(s: State, a: Action) {
    match a
    case Lock(c) => c < |s.callers| && s.callers[c] == Idle && s.lock == None
    case Offer(c) => c < |s.callers| && s.callers[c] == Holding
    case Unlock(c) => c < |s.callers| && s.callers[c] == Holding
    case Arrive => s.worker == Away
    case Apply => s.worker.Working?
    case Reply(c) => c < |s.callers| && s.worker.Replying? && s.callers[c] == Blocked(s.worker.request)
  }

  function Step(s: State, a: Action): State
    requires Enabled(s, a)
  {
    match a
    case Lock(c) => s.(callers := s.callers[c := Holding], lock := Some(c))
    case Offer(c) =>
      var offered := s.(callers := s.callers[c := Blocked(s.next)], next := s.next + 1);
      if s.worker == AtReceive then offered.(worker := Working(s.next))
      else offered.(dropped := s.dropped + {s.next})
    case Unlock(c) => s.(callers := s.callers[c := Idle], lock := None)
    case Arrive => s.(worker := AtReceive)
    case Apply => s.(worker := Replying(s.worker.request))
    case Reply(c) =>
      s.(callers := s.callers[c := Holding], worker := Away, replied := s.replied + [(s.worker.request, c)])
  }

  ghost predicate IsRunFrom(start: State, states: seq<State>, actions: seq<Action>) {
    && |states| == |actions| + 1
    && states[0] == start
    && forall i | 0 <= i < |actions| :: Enabled(states[i], actions[i]) && states[i + 1] == Step(states[i], actions[i])
  }

  /** The worker holds this request. */
  predicate Holds(w: Worker, r: Request) {
    w == Working(r) || w == Replying(r)
  }

  /** The mutex, the blocked callers and the worker agree. */
  ghost predicate Core(s: State) {
    && (forall c | 0 <= c < |s.callers| :: s.callers[c] == Idle <==> s.lock != Some(c))
    && (s.lock.Some? ==> s.lock.value < |s.callers|)
    && (forall c | 0 <= c < |s.callers| && s.callers[c].Blocked? ::
      s.callers[c].request < s.next && (s.callers[c].request in s.dropped <==> !Holds(s.worker, s.callers[c].request)))
    && (s.worker.Working? || s.worker.Replying? ==>
      && s.lock.Some? && s.callers[s.lock.value] == Blocked(s.worker.request)
      && s.worker.request !in s.dropped && s.worker.request + 1 == s.next)
    && (forall r | r in s.dropped :: r < s.next && s.lock.Some? && s.callers[s.lock.value] == Blocked(r))
  }

  /** Every request made was dropped, is with the worker, or was answered; the answered ones once each and in order. */
  ghost predicate Answered(s: State) {
    && (forall i | 0 <= i < |s.replied| ::
      s.replied[i].0 < s.next && s.replied[i].0 !in s.dropped && !Holds(s.worker, s.replied[i].0))
    && (forall i, j | 0 <= i < j < |s.replied| :: s.replied[i].0 < s.replied[j].0)
    && (forall r: nat {:trigger Settled(s, r)} | r < s.next :: Settled(s, r))
  }

  ghost predicate Inv(s: State) {
    Core(s) && Answered(s)
  }

  ghost predicate Settled(s: State, r: Request) {
    r in s.dropped || Holds(s.worker, r) || exists i | 0 <= i < |s.replied| :: s.replied[i].0 == r
  }

  lemma StepKeepsSettled(s: State, a: Action, r: Request)
    requires Core(s) && Enabled(s, a) && r < Step(s, a).next
    requires r < s.next ==> Settled(s, r)
    ensures Settled(Step(s, a), r)
  {
    var s' := Step(s, a);
    if a.Reply? && r == s.worker.request {
      assert s'.replied[|s.replied|].0 == r;
    } else if r < s.next && r !in s.dropped && !Holds(s.worker, r) {
      var i :| 0 <= i < |s.replied| && s.replied[i].0 == r;
      assert s'.replied[i].0 == r;
    }
  }

  lemma StepKeepsAnswered(s: State, a: Action)
    requires Inv(s) && Enabled(s, a)
    ensures Answered(Step(s, a))
  {
    forall r: nat | r < Step(s, a).next ensures Settled(Step(s, a), r) {
      assert r < s.next ==> Settled(s, r);
      StepKeepsSettled(s, a, r);
    }
  }

  lemma StepKeepsInv(s: State, a: Action)
    requires Inv(s) && Enabled(s, a)
    ensures Inv(Step(s, a))
  {
    StepKeepsAnswered(s, a);
  }

  lemma {:induction false} RunInvariant(n: nat, states: seq<State>, actions: seq<Action>, k: nat)
    requires IsRunFrom(Initial(n), states, actions) && k <= |actions|
    ensures Inv(states[k]) && |states[k].callers| == n
  {
    if k > 0 {
      RunInvariant(n, states, actions, k - 1);
      StepKeepsInv(states[k - 1], actions[k - 1]);
    }
  }

  /**
   * In every interleaving at most one request is outstanding; an accepted request is answered once, in order, and on
   * its own channel; and a waiting caller either has its request with the worker or had it dropped.
   */
  lemma OneOutstanding(n: nat, states: seq<State>, actions: seq<Action>, k: nat)
    requires IsRunFrom(Initial(n), states, actions) && k <= |actions|
    ensures |states[k].callers| == n
    ensures forall c, d | 0 <= c < n && 0 <= d < n && states[k].callers[c].Blocked? &&
      states[k].callers[d].Blocked? :: c == d
    ensures forall c | 0 <= c < n && states[k].callers[c].Blocked? ::
      states[k].callers[c].request in states[k].dropped <==> !Holds(states[k].worker, states[k].callers[c].request)
    ensures forall i, j | 0 <= i < j < |states[k].replied| :: states[k].replied[i].0 != states[k].replied[j].0
    ensures |states[k].dropped| <= 1
  {
    RunInvariant(n, states, actions, k);
    var s := states[k];
    if s.dropped != {} {
      var r :| r in s.dropped;
      assert s.dropped == {r};
    }
  }

  /** The reply goes to the caller that made the request. */
  lemma ReplyReachesItsCaller(n: nat, states: seq<State>, actions: seq<Action>, k: nat)
    requires IsRunFrom(Initial(n), states, actions) && k < |actions| && states[k].worker.Replying?
    ensures exists c ::
      Enabled(states[k], Reply(c)) && forall a :: Enabled(states[k], a) ==> a == Reply(c)
  {
    RunInvariant(n, states, actions, k);
    assert Enabled(states[k], Reply(states[k].lock.value));
  }

  /** A request is dropped exactly when it is offered while the worker is not at its receive. */
  lemma DroppedExactly(s: State, c: nat)
    requires Inv(s) && Enabled(s, Offer(c))
    ensures Step(s, Offer(c)).callers[c] == Blocked(s.next)
    ensures s.next in Step(s, Offer(c)).dropped <==> s.worker != AtReceive
  {
  }

  /**
   * A dropped request blocks its caller forever, and the mutex with it: in no continuation does any caller of the
   * instance change state again.
   */
  lemma {:induction false} DroppedWedges(s: State, states: seq<State>, actions: seq<Action>, k: nat)
    requires Inv(s) && s.dropped != {}
    requires IsRunFrom(s, states, actions) && k <= |actions|
    ensures states[k].callers == s.callers && states[k].lock == s.lock && states[k].replied == s.replied
    ensures Inv(states[k]) && states[k].dropped == s.dropped
  {
    if k > 0 {
      DroppedWedges(s, states, actions, k - 1);
      StepKeepsInv(states[k - 1], actions[k - 1]);
      var r :| r in s.dropped;
      assert states[k - 1].callers[s.lock.value] == Blocked(r);
    }
  }

  /**
   * An accepted request is answered: from the moment the worker holds it, nothing can happen in any interleaving but
   * the remaining work on it and the reply, and something always can. So only a dropped request blocks a caller
   * forever.
   */
  lemma AcceptedIsAnswered(s: State, states: seq<State>, actions: seq<Action>, k: nat)
    requires Inv(s) && IsRunFrom(s, states, actions) && k <= |actions|
    requires s.worker.Working? || s.worker.Replying?
    ensures
      var r, c, due := s.worker.request, s.lock.value, if s.worker.Working? then 2 else 1;
      && (k < due ==> states[k].callers == s.callers && Holds(states[k].worker, r) && exists a :: Enabled(states[k], a))
      && (k == due ==> states[k].callers == s.callers[c := Holding] && states[k].replied == s.replied + [(r, c)])
      && s.callers[c] == Blocked(r)
  {
    if s.worker.Replying? {
      assert Enabled(s, Reply(s.lock.value));
    } else {
      assert Enabled(s, Apply);
      var s' := Step(s, Apply);
      assert Enabled(s', Reply(s.lock.value));
      assert k > 0 ==> actions[0] == Apply && states[1] == s';
      assert k > 1 ==> Enabled(s', actions[1]) && actions[1] == Reply(s.lock.value);
    }
  }

  /** In every reachable state a blocked caller can still be answered if and only if its request was not dropped. */
  lemma BlockedForeverExactly(n: nat, states: seq<State>, actions: seq<Action>, k: nat, c: nat)
    requires IsRunFrom(Initial(n), states, actions) && k <= |actions|
    requires c < n && |states[k].callers| == n && states[k].callers[c].Blocked?
    ensures states[k].callers[c].request in states[k].dropped <==>
      forall later: seq<State>, more: seq<Action>, m: nat {:trigger IsRunFrom(states[k], later, more), later[m]} ::
        IsRunFrom(states[k], later, more) && m <= |more| ==> later[m].callers == states[k].callers
  {
    RunInvariant(n, states, actions, k);
    var s := states[k];
    if s.callers[c].request in s.dropped {
      forall later: seq<State>, more: seq<Action>, m: nat | IsRunFrom(s, later, more) && m <= |more|
        ensures later[m].callers == s.callers
      {
        DroppedWedges(s, later, more, m);
      }
    } else {
      var ready := if s.worker.Working? then Step(s, Apply) else s;
      var after := Step(ready, Reply(c));
      var more := if s.worker.Working? then [Apply, Reply(c)] else [Reply(c)];
      var later := if s.worker.Working? then [s, ready, after] else [s, after];
      assert IsRunFrom(s, later, more);
      assert later[|more|].callers[c] == Holding;
    }
  }

  /**
   * The race: Rollback sends several requests under one lock, and the second may be offered before the worker is back
   * at its receive. Then the instance is wedged.
   */
  lemma SecondRequestCanBeDropped(n: nat)
    requires n > 0
    ensures exists states: seq<State> ::
      && IsRunFrom(Initial(n), states, [Arrive, Lock(0), Offer(0), Apply, Reply(0), Offer(0)])
      && states[6].dropped != {}
  {
    var s0 := Initial(n);
    var s1 := Step(s0, Arrive);
    var s2 := Step(s1, Lock(0));
    var s3 := Step(s2, Offer(0));
    var s4 := Step(s3, Apply);
    var s5 := Step(s4, Reply(0));
    var s6 := Step(s5, Offer(0));
    var states := [s0, s1, s2, s3, s4, s5, s6];
    var actions := [Arrive, Lock(0), Offer(0), Apply, Reply(0), Offer(0)];
    assert IsRunFrom(s0, states, actions);
    assert 1 in states[6].dropped;
  }
}
