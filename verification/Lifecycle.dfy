/**
 * The life of one instance (instance.go, hook.go) as a state machine: installation, deletion and recovery, one step
 * for each database write or cluster call, with a crash of the plugin possible between any two steps.
 */
module Lifecycle {
  import opened Wrappers
  import opened Decimal
  import opened Ordering

  datatype Status =
    | PRE_INSTALL_RUNNING | CREATING | CREATED | POST_INSTALL_RUNNING | POST_INSTALL_FAILED | DONE
    | PRE_DELETE_RUNNING | PRE_DELETE_FAILED | DELETING | POST_DELETE_RUNNING | POST_DELETE_FAILED | DELETED

  datatype Resource = Resource(kind: string, name: string)

  /** The fields of InstanceDbData that change. Progress is the text "k/n", or empty. */
  datatype Record = Record(status: Status, progress: string, resources: seq<Resource>)

  /** What the chart resolves to: the kinds of the main templates, in order, and the number of hooks of each event. */
  datatype Chart = Chart(kinds: seq<string>, counts: map<HookEvent, nat>)

  function ChartOf(kinds: seq<string>, hooks: seq<Hook>): Chart {
    Chart(kinds, map event: HookEvent | true :: |Execution(hooks, event)|)
  }

  function Count(chart: Chart, event: HookEvent): nat {
    if event in chart.counts then chart.counts[event] else 0
  }

  function Progress(k: nat, n: nat): string {
    Itoa(k) + "/" + Itoa(n)
  }

  function BeforeSlash(s: string): string {
    if s == [] || s[0] == '/' then [] else [s[0]] + BeforeSlash(s[1..])
  }

  /** strings.Split on the slash, then strconv.Atoi of the first part. */
  function Completed(progress: string): Option<int> {
    Atoi(BeforeSlash(progress))
  }

  lemma {:induction false} BeforeSlashOf(a: string, b: string)
    requires forall i | 0 <= i < |a| :: a[i] != '/'
    ensures BeforeSlash(a + "/" + b) == a
  {
    if a != [] {
      assert (a + "/" + b)[1..] == a[1..] + "/" + b;
      BeforeSlashOf(a[1..], b);
    } else {
      assert a + "/" + b == "/" + b;
    }
  }

  /** Recovery reads back the number that was persisted. */
  lemma ProgressReadsBack(k: nat, n: nat)
    requires k < INT64_LIMIT
    ensures Completed(Progress(k, n)) == Some(k)
  {
    BeforeSlashOf(Itoa(k), Itoa(n));
    AtoiOfItoa(k);
  }

  // ---------------------------------------------------------------- the machine

  /** What the plugin's thread for this instance is doing; `rec` is its copy of the record. */
  datatype Job =
    /** Hook number `next` of an event; `written` once its progress has been persisted. */
    | Hooks(event: HookEvent, next: nat, written: bool, recovered: bool)
    /** Main resources, with those created so far. */
    | Main(created: seq<Resource>)
    /** CREATED has been persisted and there are no post-install hooks. */
    | Closing
    /** The main resources are about to be deleted. */
    | Removing(recovered: bool)

  datatype Thread = Thread(job: Job, rec: Record)

  /**
   * `positions` are the hooks created in the present phase, `crashes` the crashes during it, and `installed` the
   * post-install hooks created over the whole life.
   */
  datatype State = State(db: Option<Record>, thread: Option<Thread>, born: bool, positions: seq<nat>, crashes: nat,
    installed: seq<nat>)

  const INITIAL := State(None, None, false, [], 0, [])

  datatype Action =
    | Install
    | PrepareHook(ok: bool)                 // delete by policy, then persist progress
    | CreateHook(created: bool, ready: bool)
    | EndHooks(ok: bool)
    | CreateMain(name: Option<string>)      // None: creation fails
    | Close
    | Remove(ok: bool)
    | Delete
    | Recover
    | Crash

  function Running(event: HookEvent): Status {
    match event
    case PRE_INSTALL => PRE_INSTALL_RUNNING
    case POST_INSTALL => POST_INSTALL_RUNNING
    case PRE_DELETE => PRE_DELETE_RUNNING
    case _ => POST_DELETE_RUNNING
  }

  /** The events whose hooks a restarted plugin continues. */
  function Resumed(status: Status): Option<HookEvent> {
    match status
    case POST_INSTALL_RUNNING => Some(POST_INSTALL)
    case PRE_DELETE_RUNNING => Some(PRE_DELETE)
    case POST_DELETE_RUNNING => Some(POST_DELETE)
    case _ => None
  }

  function Save(s: State, rec: Record, job: Job): State {
    s.(db := Some(rec), thread := Some(Thread(job, rec)))
  }

  function Stop(s: State, db: Option<Record>): State {
    s.(db := db, thread := None)
  }

  /** A phase that starts from its first hook. */
  function Begin(s: State, rec: Record, event: HookEvent, recovered: bool): State {
    s.(thread := Some(Thread(Hooks(event, 0, false, recovered), rec)), positions := [], crashes := 0)
  }

  function HooksFail(s: State, event: HookEvent, rec: Record): State {
    match event
    case PRE_INSTALL => Stop(s, None)
    case POST_INSTALL => Stop(s, Some(rec.(status := POST_INSTALL_FAILED)))
    case PRE_DELETE => Stop(s, Some(rec.(status := PRE_DELETE_FAILED)))
    case _ => Stop(s, Some(rec.(status := POST_DELETE_FAILED)))
  }

  function HooksEnd(s: State, event: HookEvent, recovered: bool, rec: Record): State {
    match event
    case PRE_INSTALL => Save(s, rec.(status := CREATING), Main([]))
    case POST_INSTALL => Stop(s, Some(rec.(status := DONE)))
    case PRE_DELETE =>
      if recovered then s.(thread := Some(Thread(Removing(true), rec)))
      else Save(s, rec.(status := DELETING), Removing(false))
    case _ => if recovered then Stop(s, Some(rec.(status := DELETED))) else Stop(s, None)
  }

  /** Enough main resources: CREATED is persisted with them, and the post-install hooks start. */
  function MainEnds(chart: Chart, s: State, rec: Record, created: seq<Resource>): State {
    var rec' := rec.(status := CREATED, resources := created);
    if Count(chart, POST_INSTALL) == 0 then Save(s, rec', Closing)
    else Begin(s.(db := Some(rec')), rec'.(status := POST_INSTALL_RUNNING, progress := ""), POST_INSTALL, false)
  }

  function Step(chart: Chart, s: State, a: Action): State {
    match (a, s.thread)
    case (Crash, Some(_)) => s.(thread := None, crashes := s.crashes + 1)
    case (Install, None) =>
      if s.born then s
      else
        var rec := Record(PRE_INSTALL_RUNNING, "", []);
        Begin(s.(db := Some(rec), born := true), rec, PRE_INSTALL, false)
    case (PrepareHook(ok), Some(Thread(Hooks(event, next, false, recovered), rec))) =>
      if next >= Count(chart, event) then s
      else if !ok then HooksFail(s, event, rec)
      else Save(s, rec.(progress := Progress(next + 1, Count(chart, event))), Hooks(event, next, true, recovered))
    case (CreateHook(created, ready), Some(Thread(Hooks(event, next, true, recovered), rec))) =>
      var s' :=
        if !created then s
        else s.(positions := s.positions + [next],
          installed := if event == POST_INSTALL then s.installed + [next] else s.installed);
      if created && ready then s'.(thread := Some(Thread(Hooks(event, next + 1, false, recovered), rec)))
      else HooksFail(s', event, rec)
    case (EndHooks(ok), Some(Thread(Hooks(event, next, false, recovered), rec))) =>
      if next < Count(chart, event) then s
      else if ok || Count(chart, event) == 0 then HooksEnd(s, event, recovered, rec)
      else HooksFail(s, event, rec)
    case (CreateMain(name), Some(Thread(Main(created), rec))) =>
      if |created| == |chart.kinds| then MainEnds(chart, s, rec, created)
      else if name.None? then Stop(s, None)
      else if |created| < |chart.kinds| then
        s.(thread := Some(Thread(Main(created + [Resource(chart.kinds[|created|], name.value)]), rec)))
      else s
    case (Close, Some(Thread(Closing, rec))) => Stop(s, Some(rec.(status := DONE)))
    case (Remove(ok), Some(Thread(Removing(recovered), rec))) =>
      if !ok then s.(thread := None)
      else if !recovered && Count(chart, POST_DELETE) == 0 then Stop(s, None)
      else
        var rec' := rec.(status := POST_DELETE_RUNNING, progress := "");
        Begin(s.(db := Some(rec')), rec', POST_DELETE, recovered)
    case (Delete, None) =>
      if s.db.None? then s
      else if s.db.value.status == DELETED then Stop(s, None)
      else
        var rec := s.db.value.(status := PRE_DELETE_RUNNING, progress := "");
        Begin(s.(db := Some(rec)), rec, PRE_DELETE, false)
    case (Recover, None) =>
      if s.db.None? || Resumed(s.db.value.status).None? then s
      else
        var completed := Completed(s.db.value.progress);
        if completed.None? || completed.value < 0 then s
        else
          var event := Resumed(s.db.value.status).value;
          s.(thread := Some(Thread(Hooks(event, completed.value, false, event == PRE_DELETE), s.db.value)))
    case _ => s
  }

  ghost predicate IsRun(chart: Chart, states: seq<State>, actions: seq<Action>) {
    && |states| == |actions| + 1
    && states[0] == INITIAL
    && forall i | 0 <= i < |actions| :: states[i + 1] == Step(chart, states[i], actions[i])
  }

  // ---------------------------------------------------------------- what every run keeps

  ghost predicate Increasing(positions: seq<nat>, below: nat) {
    && (forall i | 0 <= i < |positions| :: positions[i] < below)
    && (forall i, j | 0 <= i < j < |positions| :: positions[i] < positions[j])
  }

  /** Of the first k hooks of the phase, all but one for each crash were created, each once and in order. */
  ghost predicate Accounted(s: State, k: nat, pending: nat) {
    Increasing(s.positions, k) && k <= |s.positions| + s.crashes + pending
  }

  /** What the persisted record tells a restarted plugin: how far the phase has got. */
  ghost predicate Persisted(chart: Chart, s: State, pending: nat) {
    Saves(s) ==>
      var n := Count(chart, Resumed(s.db.value.status).value);
      exists k: nat | 1 <= k <= n :: s.db.value.progress == Progress(k, n) && Accounted(s, k, pending)
  }

  ghost predicate ThreadInv(chart: Chart, s: State, t: Thread) {
    match t.job
    case Hooks(event, next, written, recovered) =>
      var n := Count(chart, event);
      && event != TEST && next <= n && t.rec.status == Running(event)
      && Accounted(s, next, 0)
      && (next > 0 || written ==> s.db == Some(t.rec))
      && (event == PRE_DELETE && recovered ==> next > 0)
      && (written ==> next < n && t.rec.progress == Progress(next + 1, n))
      && (!written && next > 0 ==> t.rec.progress == Progress(next, n))
      && (next == 0 && !written ==> s.db.Some? && (Resumed(s.db.value.status).None? || s.db.value.progress == ""))
    case Main(_) => s.db.Some? && Resumed(s.db.value.status).None?
    case Closing => s.db.Some? && Resumed(s.db.value.status).None?
    case Removing(recovered) => recovered ==> s.db == Some(t.rec) && t.rec.status == PRE_DELETE_RUNNING
  }

  /** A hook whose progress is written but which is not yet created is the one a crash would skip. */
  ghost function Pending(s: State): nat {
    if s.thread.Some? && s.thread.value.job.Hooks? && s.thread.value.job.written then 1 else 0
  }

  ghost predicate HookInv(chart: Chart, s: State) {
    Persisted(chart, s, Pending(s)) && (s.thread.Some? ==> ThreadInv(chart, s, s.thread.value))
  }

  ghost predicate Fits(chart: Chart) {
    forall event :: Count(chart, event) < INT64_LIMIT
  }

  /** Whether the record is one a restarted plugin continues. */
  ghost predicate Saves(s: State) {
    && s.db.Some? && s.db.value.progress != ""
    && s.db.value.status in {POST_INSTALL_RUNNING, PRE_DELETE_RUNNING, POST_DELETE_RUNNING}
  }

  lemma PrepareKeeps(chart: Chart, s: State, ok: bool)
    requires HookInv(chart, s) && Fits(chart)
    ensures HookInv(chart, Step(chart, s, PrepareHook(ok)))
  {
    if ok && s.thread.Some? && s.thread.value.job.Hooks? && !s.thread.value.job.written {
      var Hooks(event, next, _, _) := s.thread.value.job;
      var s' := Step(chart, s, PrepareHook(ok));
      assert next < Count(chart, event) ==>
        s'.db.value.progress == Progress(next + 1, Count(chart, event)) && Accounted(s', next + 1, 1);
    }
  }

  lemma CreateKeeps(chart: Chart, s: State, created: bool, ready: bool)
    requires HookInv(chart, s) && Fits(chart)
    ensures HookInv(chart, Step(chart, s, CreateHook(created, ready)))
  {
    if s.thread.Some? && s.thread.value.job.Hooks? && s.thread.value.job.written {
      var Hooks(event, next, _, _) := s.thread.value.job;
      var s' := Step(chart, s, CreateHook(created, ready));
      assert s.db.value.progress == Progress(next + 1, Count(chart, event));
      assert created ==> Accounted(s', next + 1, 0);
    }
  }

  lemma RecoverKeeps(chart: Chart, s: State)
    requires HookInv(chart, s) && Fits(chart)
    ensures HookInv(chart, Step(chart, s, Recover))
  {
    if Step(chart, s, Recover) != s {
      var n := Count(chart, Resumed(s.db.value.status).value);
      assert s.db.value.progress != "";
      var k: nat :| 1 <= k <= n && s.db.value.progress == Progress(k, n) && Accounted(s, k, 0);
      ProgressReadsBack(k, n);
    }
  }

  lemma CrashKeeps(chart: Chart, s: State)
    requires HookInv(chart, s)
    ensures HookInv(chart, Step(chart, s, Crash))
  {
    var s' := Step(chart, s, Crash);
    assert forall k: nat :: Accounted(s, k, 1) && s.thread.Some? ==> Accounted(s', k, 0);
    assert forall k: nat :: Accounted(s, k, 0) && s.thread.Some? ==> Accounted(s', k, 0);
  }

  lemma EndKeeps(chart: Chart, s: State, ok: bool)
    requires HookInv(chart, s)
    ensures HookInv(chart, Step(chart, s, EndHooks(ok)))
  {
  }

  lemma MainKeeps(chart: Chart, s: State, a: Action)
    requires HookInv(chart, s) && a.CreateMain?
    ensures HookInv(chart, Step(chart, s, a))
  {
    assert Step(chart, s, a).db == s.db || !Saves(Step(chart, s, a));
  }

  lemma RequestKeeps(chart: Chart, s: State, a: Action)
    requires HookInv(chart, s) && (a.Install? || a.Delete? || a.Remove? || a.Close?)
    ensures HookInv(chart, Step(chart, s, a))
  {
    assert Step(chart, s, a).db == s.db || !Saves(Step(chart, s, a));
  }

  lemma StepKeepsHooks(chart: Chart, s: State, a: Action)
    requires HookInv(chart, s) && Fits(chart)
    ensures HookInv(chart, Step(chart, s, a))
  {
    match a
    case PrepareHook(ok) => PrepareKeeps(chart, s, ok);
    case CreateHook(created, ready) => CreateKeeps(chart, s, created, ready);
    case EndHooks(ok) => EndKeeps(chart, s, ok);
    case Recover => RecoverKeeps(chart, s);
    case Crash => CrashKeeps(chart, s);
    case CreateMain(_) => MainKeeps(chart, s, a);
    case _ => RequestKeeps(chart, s, a);
  }

  // ---------------------------------------------------------------- resources and the whole life

  /** One entry for each main template, in order and of the same kind. */
  ghost predicate Complete(chart: Chart, resources: seq<Resource>) {
    |resources| == |chart.kinds| && forall i | 0 <= i < |resources| :: resources[i].kind == chart.kinds[i]
  }

  predicate Installed(status: Status) {
    status in {CREATED, POST_INSTALL_RUNNING, POST_INSTALL_FAILED, DONE}
  }

  ghost predicate LifeInv(chart: Chart, s: State) {
    && (!s.born ==> s == INITIAL)
    && (s.db.Some? && Installed(s.db.value.status) ==> Complete(chart, s.db.value.resources))
    && (s.db.Some? && s.db.value.status == POST_INSTALL_RUNNING ==>
        s.db.value.progress != "" && s.installed == s.positions)
    && (s.thread.Some? ==> match s.thread.value.job
        case Hooks(event, _, written, recovered) =>
          && (event == PRE_INSTALL ==> s.installed == [] && !recovered)
          && (event == POST_INSTALL ==>
            && s.installed == s.positions && Complete(chart, s.thread.value.rec.resources)
            && !recovered && s.db.Some? && Installed(s.db.value.status))
          && (event == PRE_DELETE || event == POST_DELETE ==> s.db.Some? && !Installed(s.db.value.status))
        case Main(created) =>
          && s.installed == [] && |created| <= |chart.kinds|
          && forall i | 0 <= i < |created| :: created[i].kind == chart.kinds[i]
        case Closing => Complete(chart, s.thread.value.rec.resources)
        case Removing(_) => s.db.Some? && !Installed(s.db.value.status))
    && exists n: nat :: Increasing(s.installed, n)
  }

  lemma CreateKeepsLife(chart: Chart, s: State, created: bool, ready: bool)
    requires LifeInv(chart, s) && HookInv(chart, s)
    ensures LifeInv(chart, Step(chart, s, CreateHook(created, ready)))
  {
    var s' := Step(chart, s, CreateHook(created, ready));
    if s'.installed != s.installed {
      assert Increasing(s'.installed, s.thread.value.job.next + 1);
    }
  }

  lemma EndKeepsLife(chart: Chart, s: State, ok: bool)
    requires LifeInv(chart, s) && HookInv(chart, s)
    ensures LifeInv(chart, Step(chart, s, EndHooks(ok)))
  {
    assert Step(chart, s, EndHooks(ok)).installed == s.installed;
  }

  lemma MainKeepsLife(chart: Chart, s: State, a: Action)
    requires LifeInv(chart, s) && (a.CreateMain? || a.Remove?)
    ensures LifeInv(chart, Step(chart, s, a))
  {
    assert Step(chart, s, a).installed == s.installed;
  }

  lemma RecoverKeepsLife(chart: Chart, s: State)
    requires LifeInv(chart, s) && HookInv(chart, s) && Fits(chart)
    ensures LifeInv(chart, Step(chart, s, Recover))
  {
    assert Step(chart, s, Recover).installed == s.installed;
  }

  lemma StepKeepsLife(chart: Chart, s: State, a: Action)
    requires LifeInv(chart, s) && HookInv(chart, s) && Fits(chart)
    ensures LifeInv(chart, Step(chart, s, a))
  {
    match a
    case CreateHook(created, ready) => CreateKeepsLife(chart, s, created, ready);
    case EndHooks(ok) => EndKeepsLife(chart, s, ok);
    case CreateMain(_) => MainKeepsLife(chart, s, a);
    case Remove(_) => MainKeepsLife(chart, s, a);
    case Recover => RecoverKeepsLife(chart, s);
    case _ => assert Step(chart, s, a).installed == s.installed;
  }

  lemma {:induction false} RunInvariant(chart: Chart, states: seq<State>, actions: seq<Action>, i: nat)
    requires IsRun(chart, states, actions) && i <= |actions| && Fits(chart)
    ensures HookInv(chart, states[i]) && LifeInv(chart, states[i])
  {
    if i > 0 {
      RunInvariant(chart, states, actions, i - 1);
      StepKeepsHooks(chart, states[i - 1], actions[i - 1]);
      StepKeepsLife(chart, states[i - 1], actions[i - 1]);
    } else {
      assert Increasing(INITIAL.installed, 0);
    }
  }

  /**
   * Hooks are created at most once and in order, however often the plugin crashes and recovers, and when all hooks of
   * a phase are through, at most one for each crash was skipped.
   */
  lemma HooksOncePerPhase(chart: Chart, states: seq<State>, actions: seq<Action>, i: nat)
    requires IsRun(chart, states, actions) && i <= |actions| && Fits(chart)
    requires states[i].thread.Some? && states[i].thread.value.job.Hooks?
    ensures
      var Hooks(event, next, written, _) := states[i].thread.value.job;
      && next <= Count(chart, event)
      && Increasing(states[i].positions, next)
      && next - states[i].crashes <= |states[i].positions| <= next
  {
    RunInvariant(chart, states, actions, i);
    IncreasingCount(states[i].positions, states[i].thread.value.job.next);
  }

  lemma {:induction false} IncreasingCount(positions: seq<nat>, below: nat)
    requires Increasing(positions, below)
    ensures |positions| <= below
  {
    if positions != [] {
      var last := |positions| - 1;
      IncreasingCount(positions[..last], positions[last]);
    }
  }

  /** Over a whole life, with any crashes, recoveries and deletions, no post-install hook is created twice. */
  lemma PostInstallHooksOnce(chart: Chart, states: seq<State>, actions: seq<Action>, i: nat)
    requires IsRun(chart, states, actions) && i <= |actions| && Fits(chart)
    ensures forall j, k | 0 <= j < k < |states[i].installed| :: states[i].installed[j] < states[i].installed[k]
  {
    RunInvariant(chart, states, actions, i);
  }

  /** A record that says DONE has no thread, and its post-install hooks are all accounted for. */
  ghost predicate DoneInv(chart: Chart, s: State) {
    s.db.Some? && s.db.value.status == DONE ==>
      s.thread.None? && Count(chart, POST_INSTALL) <= |s.installed| + s.crashes
  }

  lemma StepKeepsDone(chart: Chart, s: State, a: Action)
    requires HookInv(chart, s) && LifeInv(chart, s) && DoneInv(chart, s) && ClosingInv(chart, s)
    ensures DoneInv(chart, Step(chart, s, a)) && ClosingInv(chart, Step(chart, s, a))
  {
  }

  /** Closing is for charts without post-install hooks. */
  ghost predicate ClosingInv(chart: Chart, s: State) {
    s.thread.Some? && s.thread.value.job.Closing? ==> Count(chart, POST_INSTALL) == 0
  }

  /** An instance that is DONE has skipped at most one post-install hook for each crash of that phase. */
  lemma {:induction false} DoneSkipsAtMostCrashes(chart: Chart, states: seq<State>, actions: seq<Action>, i: nat)
    requires IsRun(chart, states, actions) && i <= |actions| && Fits(chart)
    ensures DoneInv(chart, states[i]) && ClosingInv(chart, states[i])
    ensures states[i].db.Some? && states[i].db.value.status == DONE ==>
      Count(chart, POST_INSTALL) - states[i].crashes <= |states[i].installed|
  {
    if i > 0 {
      DoneSkipsAtMostCrashes(chart, states, actions, i - 1);
      RunInvariant(chart, states, actions, i - 1);
      StepKeepsDone(chart, states[i - 1], actions[i - 1]);
    }
  }

  /** A record that says the main resources are there lists all of them. */
  lemma RecordedResourcesComplete(chart: Chart, states: seq<State>, actions: seq<Action>, i: nat)
    requires IsRun(chart, states, actions) && i <= |actions| && Fits(chart)
    requires states[i].db.Some? && Installed(states[i].db.value.status)
    ensures Complete(chart, states[i].db.value.resources)
  {
    RunInvariant(chart, states, actions, i);
  }

  /**
   * A stopped instance is resumed exactly when its status is one of the three hook phases and some progress was
   * written; in the post-install phase it always was. The thread continues at the first hook not yet written.
   */
  lemma RecoverResumesExactly(chart: Chart, states: seq<State>, actions: seq<Action>, i: nat)
    requires IsRun(chart, states, actions) && i <= |actions| && Fits(chart) && states[i].thread.None?
    ensures Step(chart, states[i], Recover).thread.Some? <==> Saves(states[i])
    ensures states[i].db.Some? && states[i].db.value.status == POST_INSTALL_RUNNING ==> Saves(states[i])
    ensures Saves(states[i]) ==>
      var k := Step(chart, states[i], Recover).thread.value.job.next;
      && Step(chart, states[i], Recover).thread.value.job.event == Resumed(states[i].db.value.status).value
      && 1 <= k && states[i].db.value.progress == Progress(k, Count(chart, Resumed(states[i].db.value.status).value))
  {
    RunInvariant(chart, states, actions, i);
    if Saves(states[i]) {
      var n := Count(chart, Resumed(states[i].db.value.status).value);
      var k: nat :| 1 <= k <= n && states[i].db.value.progress == Progress(k, n);
      ProgressReadsBack(k, n);
    } else {
      assert Completed("") == None;
    }
  }

  /** A deletion that crashes before its first hook is written is not continued, although its status says it should. */
  lemma EarlyDeletionIsStranded(chart: Chart, s: State)
    requires s.thread.None? && s.db.Some? && s.db.value.status != DELETED
    ensures
      var crashed := Step(chart, Step(chart, s, Delete), Crash);
      && crashed.db.Some? && Resumed(crashed.db.value.status) == Some(PRE_DELETE)
      && Step(chart, crashed, Recover) == crashed
  {
    assert Completed("") == None;
  }

  /**
   * The machine runs as many hooks of an event as the chart's hooks declare it: those and only those, in the order of
   * their weights.
   */
  lemma ChartCountsHooks(kinds: seq<string>, hooks: seq<Hook>, event: HookEvent)
    ensures ChartOf(kinds, hooks).kinds == kinds
    ensures Count(ChartOf(kinds, hooks), event) == |Execution(hooks, event)|
    ensures Count(ChartOf(kinds, hooks), event) > 0 <==> exists h :: h in hooks && event in h.payload
    ensures hooks != [] ==>
      Count(ChartOf(kinds, hooks), event) - Count(ChartOf(kinds, hooks[1..]), event) ==
      multiset(hooks[0].payload)[event]
    ensures forall h :: h in Execution(hooks, event) <==> h in hooks && event in h.payload
  {
    ExecutionExactly(hooks, event);
    ExecutionLength(hooks, event);
    if |Execution(hooks, event)| > 0 {
      assert Execution(hooks, event)[0] in Execution(hooks, event);
    }
    if hooks != [] {
      ExecutionLength(hooks[1..], event);
      DeclaredExactly(hooks[0], hooks[0].payload, event);
      TimesIsMultiplicity(hooks[0].payload, event);
    }
  }

  lemma ExecutionLength(hooks: seq<Hook>, event: HookEvent)
    ensures |Execution(hooks, event)| == |ByEvent(hooks, event)|
  {
    SortedSorts(ByEvent(hooks, event));
    SameLength(Execution(hooks, event), ByEvent(hooks, event));
  }

  /** Re-resolving the chart after a restart gives the machine the same counts, and each position the same hook. */
  lemma ChartSurvivesRestart(kinds: seq<string>, before: seq<Hook>, again: seq<Hook>, event: HookEvent)
    requires multiset(before) == multiset(again) && Distinguished(before)
    ensures Execution(again, event) == Execution(before, event)
    ensures Count(ChartOf(kinds, again), event) == Count(ChartOf(kinds, before), event) == |Execution(before, event)|
  {
    SortedSorts(ByEvent(again, event));
    ExecutionIsCanonical(before, again, event, Execution(again, event));
  }

  // ---------------------------------------------------------------- the recorded resources over a whole life

  /** The record has its list of resources for good. */
  predicate Recorded(status: Status) {
    status != PRE_INSTALL_RUNNING && status != CREATING
  }

  /** The thread's copy of the record agrees with it, and main resources are only created while it says so. */
  ghost predicate ListInv(s: State) {
    s.thread.Some? ==>
      && s.db.Some?
      && (Recorded(s.db.value.status) ==> s.thread.value.rec.resources == s.db.value.resources)
      && (s.thread.value.job.Main? ==> s.db.value.status == CREATING)
      && (s.thread.value.job.Hooks? && s.thread.value.job.event == PRE_INSTALL ==>
          s.db.value.status == PRE_INSTALL_RUNNING)
      && (!s.thread.value.job.Main? && !(s.thread.value.job.Hooks? && s.thread.value.job.event == PRE_INSTALL) ==>
          Recorded(s.db.value.status))
  }

  lemma StepKeepsList(chart: Chart, s: State, a: Action)
    requires HookInv(chart, s) && LifeInv(chart, s) && ListInv(s)
    ensures ListInv(Step(chart, s, a))
    ensures s.db.Some? && Recorded(s.db.value.status) && Step(chart, s, a).db.Some? ==>
      Recorded(Step(chart, s, a).db.value.status) && Step(chart, s, a).db.value.resources == s.db.value.resources
    ensures s.born && s.db.None? ==> Step(chart, s, a).db.None?
    ensures s.born ==> Step(chart, s, a).born
  {
    if a.PrepareHook? || a.CreateHook? {
      HooksKeepList(chart, s, a);
    } else if a.EndHooks? {
      PhaseKeepsList(chart, s, a);
    } else if a.CreateMain? || a.Close? || a.Remove? {
      MainKeepsList(chart, s, a);
    }
  }

  lemma HooksKeepList(chart: Chart, s: State, a: Action)
    requires HookInv(chart, s) && LifeInv(chart, s) && ListInv(s) && (a.PrepareHook? || a.CreateHook?)
    ensures ListInv(Step(chart, s, a))
    ensures s.db.Some? && Recorded(s.db.value.status) && Step(chart, s, a).db.Some? ==>
      Recorded(Step(chart, s, a).db.value.status) && Step(chart, s, a).db.value.resources == s.db.value.resources
    ensures s.born && s.db.None? ==> Step(chart, s, a).db.None?
    ensures s.born ==> Step(chart, s, a).born
  {
  }

  lemma PhaseKeepsList(chart: Chart, s: State, a: Action)
    requires HookInv(chart, s) && LifeInv(chart, s) && ListInv(s) && a.EndHooks?
    ensures ListInv(Step(chart, s, a))
    ensures s.db.Some? && Recorded(s.db.value.status) && Step(chart, s, a).db.Some? ==>
      Recorded(Step(chart, s, a).db.value.status) && Step(chart, s, a).db.value.resources == s.db.value.resources
    ensures s.born && s.db.None? ==> Step(chart, s, a).db.None?
    ensures s.born ==> Step(chart, s, a).born
  {
  }

  lemma MainKeepsList(chart: Chart, s: State, a: Action)
    requires HookInv(chart, s) && LifeInv(chart, s) && ListInv(s) && (a.CreateMain? || a.Close? || a.Remove?)
    ensures ListInv(Step(chart, s, a))
    ensures s.db.Some? && Recorded(s.db.value.status) && Step(chart, s, a).db.Some? ==>
      Recorded(Step(chart, s, a).db.value.status) && Step(chart, s, a).db.value.resources == s.db.value.resources
    ensures s.born && s.db.None? ==> Step(chart, s, a).db.None?
    ensures s.born ==> Step(chart, s, a).born
  {
  }

  lemma {:induction false} RunKeepsList(chart: Chart, states: seq<State>, actions: seq<Action>, i: nat)
    requires IsRun(chart, states, actions) && i <= |actions| && Fits(chart)
    ensures ListInv(states[i]) && (states[i].db.Some? ==> states[i].born)
  {
    if i > 0 {
      RunKeepsList(chart, states, actions, i - 1);
      RunInvariant(chart, states, actions, i - 1);
      StepKeepsList(chart, states[i - 1], actions[i - 1]);
    }
  }

  /**
   * The list persisted with CREATED stays in the record as long as there is one, through hooks, crashes, recoveries and
   * deletions: a later deletion finds what was created. A record that is gone does not come back.
   */
  lemma {:induction false} RecordedResourcesStay(chart: Chart, states: seq<State>, actions: seq<Action>, i: nat, j: nat)
    requires IsRun(chart, states, actions) && i <= j <= |actions| && Fits(chart)
    requires states[i].db.Some? && Recorded(states[i].db.value.status)
    ensures states[j].db.Some? ==>
      Recorded(states[j].db.value.status) && states[j].db.value.resources == states[i].db.value.resources
    ensures states[j].born
    decreases j
  {
    if i < j {
      RecordedResourcesStay(chart, states, actions, i, j - 1);
      RunKeepsList(chart, states, actions, j - 1);
      RunInvariant(chart, states, actions, j - 1);
      StepKeepsList(chart, states[j - 1], actions[j - 1]);
    } else {
      RunKeepsList(chart, states, actions, i);
    }
  }

  /** How far an instance has come: installation first, then deletion. */
  function Stage(status: Status): nat {
    match status
    case PRE_INSTALL_RUNNING => 0
    case CREATING => 1
    case CREATED => 2
    case POST_INSTALL_RUNNING => 3
    case POST_INSTALL_FAILED => 4
    case DONE => 4
    case PRE_DELETE_RUNNING => 5
    case PRE_DELETE_FAILED => 6
    case DELETING => 6
    case POST_DELETE_RUNNING => 7
    case POST_DELETE_FAILED => 8
    case DELETED => 8
  }

  /** What a thread is doing and how far the record has come agree. */
  ghost predicate StageInv(s: State) {
    s.thread.Some? ==>
      && s.db.Some?
      && match s.thread.value.job
         case Hooks(event, _, _, _) =>
           && (event == PRE_INSTALL ==> Stage(s.db.value.status) == 0)
           && (event == POST_INSTALL ==> 2 <= Stage(s.db.value.status) <= 3)
           && (event == PRE_DELETE ==> Stage(s.db.value.status) == 5)
           && (event == POST_DELETE ==> Stage(s.db.value.status) == 7)
         case Main(_) => Stage(s.db.value.status) == 1
         case Closing => Stage(s.db.value.status) == 2
         case Removing(_) => 5 <= Stage(s.db.value.status) <= 6
  }

  lemma StepGoesForward(chart: Chart, s: State, a: Action)
    requires HookInv(chart, s) && LifeInv(chart, s) && StageInv(s)
    ensures StageInv(Step(chart, s, a))
    ensures s.db.Some? && Step(chart, s, a).db.Some? && a != Delete ==>
      Stage(s.db.value.status) <= Stage(Step(chart, s, a).db.value.status)
    ensures s.db.Some? && Step(chart, s, a).db.Some? && a == Delete && s.thread.None? ==>
      Step(chart, s, a).db.value.status == PRE_DELETE_RUNNING
  {
    match a
    case PrepareHook(_) => HookGoesForward(chart, s, a);
    case CreateHook(_, _) => HookGoesForward(chart, s, a);
    case EndHooks(_) => PhaseGoesForward(chart, s, a);
    case _ =>
  }

  lemma HookGoesForward(chart: Chart, s: State, a: Action)
    requires HookInv(chart, s) && LifeInv(chart, s) && StageInv(s) && (a.PrepareHook? || a.CreateHook?)
    ensures StageInv(Step(chart, s, a))
    ensures s.db.Some? && Step(chart, s, a).db.Some? ==>
      Stage(s.db.value.status) <= Stage(Step(chart, s, a).db.value.status)
  {
  }

  lemma PhaseGoesForward(chart: Chart, s: State, a: Action)
    requires HookInv(chart, s) && LifeInv(chart, s) && StageInv(s) && a.EndHooks?
    ensures StageInv(Step(chart, s, a))
    ensures s.db.Some? && Step(chart, s, a).db.Some? ==>
      Stage(s.db.value.status) <= Stage(Step(chart, s, a).db.value.status)
  {
  }

  /**
   * The phases come in their order: pre-install hooks, main resources, post-install hooks; then pre-delete hooks,
   * removal, post-delete hooks. No crash and no recovery takes an instance back; only a new deletion starts over.
   */
  lemma {:induction false} PhasesInOrder(chart: Chart, states: seq<State>, actions: seq<Action>, i: nat)
    requires IsRun(chart, states, actions) && i <= |actions| && Fits(chart)
    ensures StageInv(states[i])
    ensures i > 0 && states[i - 1].db.Some? && states[i].db.Some? && actions[i - 1] != Delete ==>
      Stage(states[i - 1].db.value.status) <= Stage(states[i].db.value.status)
  {
    if i > 0 {
      PhasesInOrder(chart, states, actions, i - 1);
      RunInvariant(chart, states, actions, i - 1);
      StepGoesForward(chart, states[i - 1], actions[i - 1]);
    }
  }

  /** A main template that is created is recorded under its kind and the name it was given; all of them with CREATED. */
  lemma CreationIsRecorded(chart: Chart, s: State, created: seq<Resource>, rec: Record, name: string)
    requires s.thread == Some(Thread(Main(created), rec))
    ensures |created| < |chart.kinds| ==>
      Step(chart, s, CreateMain(Some(name))) ==
      s.(thread := Some(Thread(Main(created + [Resource(chart.kinds[|created|], name)]), rec)))
    ensures |created| == |chart.kinds| ==>
      Step(chart, s, CreateMain(None)).db == Some(Record(CREATED, rec.progress, created))
  {
  }

  /** The progress is written as the number of hooks begun, a slash, and the number of hooks. */
  lemma ProgressIsText()
    ensures Progress(1, 3) == "1/3" && Progress(12, 40) == "12/40"
  {
    assert Itoa(12) == Itoa(1) + ['2'] && Itoa(40) == Itoa(4) + ['0'];
  }

  function RunAll(chart: Chart, s: State, actions: seq<Action>): State
    decreases |actions|
  {
    if actions == [] then s else RunAll(chart, Step(chart, s, actions[0]), actions[1..])
  }

  lemma {:induction false} RunAllAppend(chart: Chart, s: State, a: seq<Action>, b: seq<Action>)
    ensures RunAll(chart, s, a + b) == RunAll(chart, RunAll(chart, s, a), b)
    decreases |a|
  {
    if a == [] {
      assert a + b == b;
    } else {
      assert (a + b)[1..] == a[1..] + b;
      RunAllAppend(chart, Step(chart, s, a[0]), a[1..], b);
    }
  }

  lemma {:induction false} RunAllKeeps(chart: Chart, s: State, actions: seq<Action>)
    requires HookInv(chart, s) && LifeInv(chart, s) && Fits(chart)
    ensures HookInv(chart, RunAll(chart, s, actions)) && LifeInv(chart, RunAll(chart, s, actions))
    decreases |actions|
  {
    if actions != [] {
      StepKeepsHooks(chart, s, actions[0]);
      StepKeepsLife(chart, s, actions[0]);
      RunAllKeeps(chart, Step(chart, s, actions[0]), actions[1..]);
    }
  }

  /** A plugin that dies anywhere during a call leaves a stopped instance that keeps both invariants. */
  lemma CrashedAnywhere(chart: Chart, s: State, actions: seq<Action>, k: nat)
    requires HookInv(chart, s) && LifeInv(chart, s) && Fits(chart) && k <= |actions|
    ensures
      var crashed := RunAll(chart, s, actions[..k] + [Crash]);
      HookInv(chart, crashed) && LifeInv(chart, crashed) && crashed.thread.None?
      && crashed.db == RunAll(chart, s, actions[..k]).db &&
          crashed.positions == RunAll(chart, s, actions[..k]).positions
  {
    RunAllKeeps(chart, s, actions[..k] + [Crash]);
    RunAllAppend(chart, s, actions[..k], [Crash]);
    var before := RunAll(chart, s, actions[..k]);
    assert RunAll(chart, before, [Crash]) == Step(chart, before, Crash) by {
      assert [Crash][1..] == [];
      assert RunAll(chart, Step(chart, before, Crash), []) == Step(chart, before, Crash);
    }
  }
}
