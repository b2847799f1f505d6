/**
 * The healthcheck fan-in of healthcheck.go: one goroutine for each hook, one that waits for all of them, and a
 * collector,
 * joined by an unbuffered channel. One action is one step of one goroutine; a send and its receive are one action.
 */
module Healthcheck {
  datatype Phase = Running | Succeeded | Failed | Unknown

  // ---------------------------------------------------------------- polling one hook

  datatype Condition = Condition(kind: string, status: string)

  /** The object found by one poll, or an error. */
  datatype Poll = Job(conditions: seq<Condition>) | Pod(phase: string) | NotReadable

  /** The first decisive condition of a job counts. */
  function JobState(conditions: seq<Condition>): Phase {
    if conditions == [] then Running
    else if conditions[0] == Condition("Complete", "True") then Succeeded
    else if conditions[0] == Condition("Failed", "True") then Failed
    else JobState(conditions[1..])
  }

  function PollState(poll: Poll): Phase {
    match poll
    case Job(conditions) => JobState(conditions)
    case Pod(phase) => if phase == "Succeeded" then Succeeded else if phase == "Failed" then Failed else Running
    case NotReadable => Unknown
  }

  /** The first condition of a job that says "True" of Complete or Failed decides; without one the job is running. */
  lemma {:induction false} JobStateExactly(conditions: seq<Condition>) returns (i: nat)
    ensures i <= |conditions|
    ensures forall j | 0 <= j < i :: conditions[j] !in {Condition("Complete", "True"), Condition("Failed", "True")}
    ensures JobState(conditions) == Running <==> i == |conditions|
    ensures JobState(conditions) == Succeeded <==> i < |conditions| && conditions[i] == Condition("Complete", "True")
    ensures JobState(conditions) == Failed <==> i < |conditions| && conditions[i] == Condition("Failed", "True")
  {
    if conditions == [] || conditions[0] in {Condition("Complete", "True"), Condition("Failed", "True")} {
      i := 0;
    } else {
      var k := JobStateExactly(conditions[1..]);
      i := k + 1;
      assert forall j | 0 < j < |conditions| :: conditions[j] == conditions[1..][j - 1];
    }
  }

  /** getHookState: poll until the phase is no longer Running. A hook of another kind is Unknown at once. */
  method GetHookState(kind: string, polls: seq<Poll>) returns (phase: Phase)
    requires kind == "Job" || kind == "Pod" ==> exists i | 0 <= i < |polls| :: PollState(polls[i]) != Running
    ensures phase != Running
    ensures kind != "Job" && kind != "Pod" ==> phase == Unknown
    ensures kind == "Job" || kind == "Pod" ==> exists i | 0 <= i < |polls| ::
      phase == PollState(polls[i]) && forall j | 0 <= j < i :: PollState(polls[j]) == Running
    ensures kind == "Job" || kind == "Pod" ==> exists i | 0 <= i < |polls| ::
      && (polls[i].NotReadable? ==> phase == Unknown)
      && (polls[i].Pod? ==> polls[i].phase in {"Succeeded", "Failed"})
      && (polls[i].Pod? ==> phase == if polls[i].phase == "Succeeded" then Succeeded else Failed)
      && (polls[i].Job? ==> phase == JobState(polls[i].conditions))
      && forall j | 0 <= j < i ::
        !polls[j].NotReadable? && (polls[j].Pod? ==> polls[j].phase !in {"Succeeded", "Failed"})
  {
    if kind != "Job" && kind != "Pod" {
      return Unknown;
    }
    var i := 0;
    while PollState(polls[i]) == Running
      invariant 0 <= i < |polls|
      invariant forall j | 0 <= j < i :: PollState(polls[j]) == Running
      decreases |polls| - i
    {
      i := i + 1;
    }
    phase := PollState(polls[i]);
  }

  // ---------------------------------------------------------------- the verdict

  function Verdict(statuses: seq<Phase>): Phase {
    if Failed in statuses then Failed else if Unknown in statuses then Unknown else Succeeded
  }

  /** The two loops that compute the final result. */
  method FinalResult(statuses: seq<Phase>) returns (result: Phase)
    ensures result == Verdict(statuses)
    ensures result == Failed <==> Failed in statuses
    ensures result == Unknown <==> Failed !in statuses && Unknown in statuses
    ensures result == Succeeded <==> Failed !in statuses && Unknown !in statuses
  {
    result := Succeeded;
    for i := 0 to |statuses|
      invariant result == Succeeded && Unknown !in statuses[..i]
    {
      if statuses[i] == Unknown {
        result := Unknown;
        break;
      }
    }
    assert result == if Unknown in statuses then Unknown else Succeeded;
    for i := 0 to |statuses|
      invariant Failed !in statuses[..i]
    {
      if statuses[i] == Failed {
        return Failed;
      }
    }
  }

  // ---------------------------------------------------------------- the protocol

  datatype Worker = Polling | Offering | Received | Finished
  datatype Waiter = Waiting | Signalling | WaiterGone
  datatype Collector = Receiving | Updating | Finishing | CollectorGone

  /** `db` is the last update: overall status and hook statuses; `heard` counts "hook finished" messages. */
  datatype State = State(workers: seq<Worker>, statuses: seq<Phase>, waiter: Waiter, collector: Collector,
    heard: nat, writes: nat, db: (Phase, seq<Phase>))

  datatype Action =
    | Finish(i: nat)       // the hook's phase is known
    | SendOne(i: nat)      // update <- true
    | Done(i: nat)         // wg.Done
    | WakeUp               // wg.Wait returns
    | SendAll              // update <- false
    | Write                // the collector's database update after a message

  function Initial(n: nat): State {
    State(seq(n, _ => Polling), seq(n, _ => Running), Waiting, Receiving, 0, 0, (Running, seq(n, _ => Running)))
  }

  predicate AllFinished(workers: seq<Worker>) {
    forall i | 0 <= i < |workers| :: workers[i] == Finished
  }

  predicate Enabled(s: State, a: Action) {
    match a
    case Finish(i) => i < |s.workers| && s.workers[i] == Polling
    case SendOne(i) => i < |s.workers| && s.workers[i] == Offering && s.collector == Receiving
    case Done(i) => i < |s.workers| && s.workers[i] == Received
    case WakeUp => s.waiter == Waiting && AllFinished(s.workers)
    case SendAll => s.waiter == Signalling && s.collector == Receiving
    case Write => s.collector == Updating || s.collector == Finishing
  }

  /** `outcome` is what polling each hook will find. */
  function Step(outcome: seq<Phase>, s: State, a: Action): State
    requires Enabled(s, a) && |outcome| == |s.statuses| == |s.workers|
  {
    match a
    case Finish(i) => s.(workers := s.workers[i := Offering], statuses := s.statuses[i := outcome[i]])
    case SendOne(i) => s.(workers := s.workers[i := Received], collector := Updating, heard := s.heard + 1)
    case Done(i) => s.(workers := s.workers[i := Finished])
    case WakeUp => s.(waiter := Signalling)
    case SendAll => s.(waiter := WaiterGone, collector := Finishing)
    case Write =>
      if s.collector == Updating then s.(collector := Receiving, writes := s.writes + 1, db := (Running, s.statuses))
      else s.(collector := CollectorGone, writes := s.writes + 1, db := (Verdict(s.statuses), s.statuses))
  }

  ghost predicate IsRun(outcome: seq<Phase>, states: seq<State>, actions: seq<Action>) {
    && |states| == |actions| + 1
    && states[0] == Initial(|outcome|)
    && forall i | 0 <= i < |actions| ::
      && |states[i].workers| == |states[i].statuses| == |outcome|
      && Enabled(states[i], actions[i])
      && states[i + 1] == Step(outcome, states[i], actions[i])
  }

  function Heard(workers: seq<Worker>): nat {
    if workers == [] then 0
    else (if workers[0] == Received || workers[0] == Finished then 1 else 0) + Heard(workers[1..])
  }

  ghost predicate Inv(outcome: seq<Phase>, s: State) {
    && |s.workers| == |s.statuses| == |outcome|
    && (forall i | 0 <= i < |outcome| && s.workers[i] != Polling :: s.statuses[i] == outcome[i])
    && s.heard == Heard(s.workers)
    && (s.waiter != Waiting ==> AllFinished(s.workers))
    && (s.waiter == WaiterGone <==> s.collector == Finishing || s.collector == CollectorGone)
    && s.writes == s.heard - (if s.collector == Updating then 1 else 0)
         + (if s.collector == CollectorGone then 1 else 0)
    && (s.collector == CollectorGone ==> s.db == (Verdict(outcome), outcome))
    && (s.collector != CollectorGone ==> s.db.0 == Running && |s.db.1| == |outcome|)
    && (s.collector != CollectorGone ==>
        forall i | 0 <= i < |outcome| :: s.db.1[i] == Running || s.db.1[i] == outcome[i])
    && (forall i | 0 <= i < |outcome| && s.workers[i] == Polling :: s.statuses[i] == Running)
    && (s.collector == Receiving ==> forall i | 0 <= i < |outcome| && s.workers[i] in {Received, Finished} ::
        s.db.1[i] == outcome[i])
  }

  lemma {:induction false} HeardUpdate(workers: seq<Worker>, i: nat, w: Worker)
    requires i < |workers|
    ensures Heard(workers[i := w]) == Heard(workers)
      - (if workers[i] == Received || workers[i] == Finished then 1 else 0)
      + (if w == Received || w == Finished then 1 else 0)
  {
    if i > 0 {
      assert workers[i := w][1..] == workers[1..][i - 1 := w];
      HeardUpdate(workers[1..], i - 1, w);
    } else {
      assert workers[0 := w][1..] == workers[1..];
    }
  }

  lemma {:induction false} HeardRange(workers: seq<Worker>)
    ensures Heard(workers) <= |workers|
    ensures AllFinished(workers) ==> Heard(workers) == |workers|
    ensures (forall i | 0 <= i < |workers| :: workers[i] == Polling) ==> Heard(workers) == 0
  {
    if workers != [] {
      HeardRange(workers[1..]);
    }
  }

  lemma StepKeepsInv(outcome: seq<Phase>, s: State, a: Action)
    requires Inv(outcome, s) && Enabled(s, a)
    ensures Inv(outcome, Step(outcome, s, a))
  {
    match a
    case Finish(i) => HeardUpdate(s.workers, i, Offering);
    case SendOne(i) => HeardUpdate(s.workers, i, Received);
    case Done(i) => HeardUpdate(s.workers, i, Finished);
    case WakeUp =>
    case SendAll =>
    case Write =>
      if s.collector == Finishing {
        assert s.statuses == outcome;
      }
  }

  lemma {:induction false} RunInvariant(outcome: seq<Phase>, states: seq<State>, actions: seq<Action>, n: nat)
    requires IsRun(outcome, states, actions) && n <= |actions|
    ensures Inv(outcome, states[n])
  {
    if n > 0 {
      RunInvariant(outcome, states, actions, n - 1);
      StepKeepsInv(outcome, states[n - 1], actions[n - 1]);
    } else {
      HeardRange(states[0].workers);
    }
  }

  /** Safety: "all finished" is only ever sent after every hook's own message has been received and written. */
  lemma AllFinishedIsLast(outcome: seq<Phase>, states: seq<State>, actions: seq<Action>, n: nat)
    requires IsRun(outcome, states, actions) && n < |actions| && actions[n] == SendAll
    ensures states[n].heard == states[n].writes == |outcome|
    ensures forall m | 0 <= m < |actions| && m != n :: actions[m] != SendAll
  {
    RunInvariant(outcome, states, actions, n);
    HeardRange(states[n].workers);
    forall m | 0 <= m < |actions| && m != n ensures actions[m] != SendAll {
      if m < n {
        WaiterStays(outcome, states, actions, m + 1, n);
      } else {
        WaiterStays(outcome, states, actions, n + 1, m);
      }
    }
  }

  lemma {:induction false} WaiterStays(outcome: seq<Phase>, states: seq<State>, actions: seq<Action>, m: nat, n: nat)
    requires IsRun(outcome, states, actions) && m <= n < |states|
    ensures states[m].waiter == WaiterGone ==> states[n].waiter == WaiterGone
    decreases n - m
  {
    if m < n {
      WaiterStays(outcome, states, actions, m + 1, n);
    }
  }

  /** No deadlock: until the collector has returned, some goroutine can move; when it has, none is left blocked. */
  lemma NeverStuck(outcome: seq<Phase>, states: seq<State>, actions: seq<Action>, n: nat)
    requires IsRun(outcome, states, actions) && n <= |actions|
    ensures states[n].collector != CollectorGone ==> exists a :: Enabled(states[n], a)
    ensures states[n].collector == CollectorGone ==>
      AllFinished(states[n].workers) && states[n].waiter == WaiterGone && forall a :: !Enabled(states[n], a)
  {
    RunInvariant(outcome, states, actions, n);
    var s := states[n];
    if s.collector == Receiving {
      if AllFinished(s.workers) {
        assert Enabled(s, WakeUp) || Enabled(s, SendAll);
      } else {
        var i :| 0 <= i < |s.workers| && s.workers[i] != Finished;
        assert Enabled(s, Finish(i)) || Enabled(s, SendOne(i)) || Enabled(s, Done(i));
      }
    } else if s.collector != CollectorGone {
      assert Enabled(s, Write);
    }
  }

  /**
   * Until the last update the check reads as running, and shows of each hook nothing or its true phase; once a hook's
   * message has been dealt with, it shows the phase.
   */
  lemma RunningUntilTheEnd(outcome: seq<Phase>, states: seq<State>, actions: seq<Action>, n: nat)
    requires IsRun(outcome, states, actions) && n <= |actions| && states[n].collector != CollectorGone
    ensures states[n].db.0 == Running && |states[n].db.1| == |outcome| == |states[n].workers|
    ensures forall i | 0 <= i < |outcome| :: states[n].db.1[i] in {Running, outcome[i]}
    ensures states[n].collector == Receiving ==>
      forall i | 0 <= i < |outcome| && states[n].workers[i] in {Received, Finished} :: states[n].db.1[i] == outcome[i]
  {
    RunInvariant(outcome, states, actions, n);
  }

  // ---------------------------------------------------------------- termination

  function Weight(w: Worker): nat {
    match w case Polling => 4 case Offering => 3 case Received => 1 case Finished => 0
  }

  function Total(workers: seq<Worker>): nat {
    if workers == [] then 0 else Weight(workers[0]) + Total(workers[1..])
  }

  function Remaining(s: State): nat {
    Total(s.workers)
    + (match s.waiter case Waiting => 2 case Signalling => 1 case WaiterGone => 0)
    + (match s.collector case Updating => 3 case Receiving => 2 case Finishing => 1 case CollectorGone => 0)
  }

  lemma {:induction false} TotalUpdate(workers: seq<Worker>, i: nat, w: Worker)
    requires i < |workers|
    ensures Total(workers[i := w]) == Total(workers) - Weight(workers[i]) + Weight(w)
  {
    if i > 0 {
      assert workers[i := w][1..] == workers[1..][i - 1 := w];
      TotalUpdate(workers[1..], i - 1, w);
    } else {
      assert workers[0 := w][1..] == workers[1..];
    }
  }

  lemma {:induction false} TotalInitial(n: nat)
    ensures Total(seq(n, _ => Polling)) == 4 * n
  {
    if n > 0 {
      assert seq(n, _ => Polling)[1..] == seq(n - 1, _ => Polling);
      TotalInitial(n - 1);
    }
  }

  lemma StepDecreases(outcome: seq<Phase>, s: State, a: Action)
    requires |outcome| == |s.statuses| == |s.workers| && Enabled(s, a)
    ensures Remaining(Step(outcome, s, a)) < Remaining(s)
  {
    match a
    case Finish(i) => TotalUpdate(s.workers, i, Offering);
    case SendOne(i) => TotalUpdate(s.workers, i, Received);
    case Done(i) => TotalUpdate(s.workers, i, Finished);
    case _ =>
  }

  lemma {:induction false} RunIsShort(outcome: seq<Phase>, states: seq<State>, actions: seq<Action>, n: nat)
    requires IsRun(outcome, states, actions) && n <= |actions|
    ensures n + Remaining(states[n]) <= 4 * |outcome| + 4
  {
    if n == 0 {
      TotalInitial(|outcome|);
    } else {
      RunIsShort(outcome, states, actions, n - 1);
      StepDecreases(outcome, states[n - 1], actions[n - 1]);
    }
  }

  /**
   * Every interleaving ends within 4N + 4 steps, and every one that cannot go on has made N + 1 updates, the last with
   * all hook phases and the verdict on them, whatever the order in which the hooks finished.
   */
  lemma EveryRunConverges(outcome: seq<Phase>, states: seq<State>, actions: seq<Action>)
    requires IsRun(outcome, states, actions)
    ensures |actions| <= 4 * |outcome| + 4
    ensures (forall a :: !Enabled(states[|actions|], a)) ==>
      && states[|actions|].writes == |outcome| + 1
      && states[|actions|].db.1 == outcome
      && (states[|actions|].db.0 == Failed <==> Failed in outcome)
      && (states[|actions|].db.0 == Unknown <==> Failed !in outcome && Unknown in outcome)
      && (states[|actions|].db.0 == Succeeded <==> Failed !in outcome && Unknown !in outcome)
  {
    var n := |actions|;
    RunIsShort(outcome, states, actions, n);
    RunInvariant(outcome, states, actions, n);
    NeverStuck(outcome, states, actions, n);
    HeardRange(states[n].workers);
  }
}
