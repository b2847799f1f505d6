/**
 * The code that drives an instance: the hook loop of hook.go with the threads of instance.go that call it, and the
 * creation and compensation of the main resources in client.go. Lifecycle.dfy is the machine these runs belong to.
 */
module InstanceClient {
  import opened Wrappers
  import opened Decimal
  import opened Ordering
  import opened Lifecycle

  /** What the cluster answers for one hook: deletion by policy, creation, and waiting for completion. */
  datatype Outcome = Outcome(deleted: bool, created: bool, ready: bool)

  /** ExecHook's verdict and what it leaves in the database, in its record, and in the cluster. */
  datatype Result = Result(ok: bool, db: Option<Record>, rec: Record, created: seq<nat>)

  /** The hooks from number `next` on. */
  function Exec(n: nat, next: nat, db: Option<Record>, rec: Record, created: seq<nat>, outcomes: seq<Outcome>,
                cleaned: bool): Result
    requires |outcomes| == n && next <= n
    decreases n - next
  {
    if next == n then Result(cleaned || n == 0, db, rec, created)
    else if !outcomes[next].deleted then Result(false, db, rec, created)
    else
      var rec' := rec.(progress := Progress(next + 1, n));
      if !outcomes[next].created then Result(false, Some(rec'), rec', created)
      else if !outcomes[next].ready then Result(false, Some(rec'), rec', created + [next])
      else Exec(n, next + 1, Some(rec'), rec', created + [next], outcomes, cleaned)
  }

  /** The steps the machine takes meanwhile. */
  function Actions(n: nat, next: nat, outcomes: seq<Outcome>, cleaned: bool): seq<Action>
    requires |outcomes| == n && next <= n
    decreases n - next
  {
    if next == n then [EndHooks(cleaned)]
    else
      var o := outcomes[next];
      if !o.deleted then [PrepareHook(false)]
      else if !o.created || !o.ready then [PrepareHook(true), CreateHook(o.created, o.ready)]
      else [PrepareHook(true), CreateHook(true, true)] + Actions(n, next + 1, outcomes, cleaned)
  }

  lemma RunTwo(chart: Chart, s: State, a: Action, b: Action, rest: seq<Action>)
    ensures RunAll(chart, s, [a, b] + rest) == RunAll(chart, Step(chart, Step(chart, s, a), b), rest)
  {
    var actions := [a, b] + rest;
    assert actions[1..] == [b] + rest && ([b] + rest)[1..] == rest;
    assert RunAll(chart, Step(chart, s, a), [b] + rest) == RunAll(chart, Step(chart, Step(chart, s, a), b), rest);
  }

  lemma RunOne(chart: Chart, s: State, a: Action)
    ensures RunAll(chart, s, [a]) == Step(chart, s, a)
  {
    assert [a][1..] == [];
    assert RunAll(chart, Step(chart, s, a), []) == Step(chart, s, a);
  }

  /** A hook that fails ends the run there. */
  lemma FailedExecIsRun(chart: Chart, s: State, outcomes: seq<Outcome>, cleaned: bool)
    requires s.thread.Some? && s.thread.value.job.Hooks? && !s.thread.value.job.written
    requires s.thread.value.job.next < Count(chart, s.thread.value.job.event) == |outcomes|
    requires outcomes[s.thread.value.job.next] != Outcome(true, true, true)
    ensures
      var Thread(Hooks(event, next, _, recovered), rec) := s.thread.value;
      var r := Exec(|outcomes|, next, s.db, rec, s.positions, outcomes, cleaned);
      var end := RunAll(chart, s, Actions(|outcomes|, next, outcomes, cleaned));
      !r.ok && end == HooksFail(s.(db := r.db, positions := r.created, installed := end.installed), event, r.rec)
  {
    var o := outcomes[s.thread.value.job.next];
    if !o.deleted {
      RunOne(chart, s, PrepareHook(false));
    } else {
      RunTwo(chart, s, PrepareHook(true), CreateHook(o.created, o.ready), []);
      assert [PrepareHook(true), CreateHook(o.created, o.ready)] + [] ==
        [PrepareHook(true), CreateHook(o.created, o.ready)];
    }
  }

  /** ExecHook, with its caller's handling of the verdict, is a run of the machine. */
  lemma {:induction false} ExecIsRun(chart: Chart, s: State, outcomes: seq<Outcome>, cleaned: bool)
    requires s.thread.Some? && s.thread.value.job.Hooks? && !s.thread.value.job.written
    requires s.thread.value.job.next <= Count(chart, s.thread.value.job.event) == |outcomes|
    ensures
      var Thread(Hooks(event, next, _, recovered), rec) := s.thread.value;
      var r := Exec(|outcomes|, next, s.db, rec, s.positions, outcomes, cleaned);
      var end := RunAll(chart, s, Actions(|outcomes|, next, outcomes, cleaned));
      var before := s.(db := r.db, positions := r.created, installed := end.installed);
      end == if r.ok then HooksEnd(before, event, recovered, r.rec) else HooksFail(before, event, r.rec)
    decreases |outcomes| - s.thread.value.job.next
  {
    var next, n := s.thread.value.job.next, |outcomes|;
    if next == n {
      RunOne(chart, s, EndHooks(cleaned));
    } else if outcomes[next] != Outcome(true, true, true) {
      FailedExecIsRun(chart, s, outcomes, cleaned);
    } else {
      var s' := NextHook(chart, s, outcomes, cleaned);
      ExecIsRun(chart, s', outcomes, cleaned);
      var r := Exec(n, next, s.db, s.thread.value.rec, s.positions, outcomes, cleaned);
      var installed := RunAll(chart, s, Actions(n, next, outcomes, cleaned)).installed;
      var before, before' := s.(db := r.db, positions := r.created, installed := installed),
                             s'.(db := r.db, positions := r.created, installed := installed);
      VerdictIgnoresThread(before, before', s.thread.value.job.event, s.thread.value.job.recovered, r.rec);
    }
  }

  /** What follows a phase of hooks does not depend on what the thread was at. */
  lemma VerdictIgnoresThread(s: State, t: State, event: HookEvent, recovered: bool, rec: Record)
    requires s.(thread := t.thread) == t
    ensures HooksEnd(s, event, recovered, rec) == HooksEnd(t, event, recovered, rec)
    ensures HooksFail(s, event, rec) == HooksFail(t, event, rec)
  {
  }

  /** A hook that succeeds leaves the rest of the run to the next one. */
  lemma NextHook(chart: Chart, s: State, outcomes: seq<Outcome>, cleaned: bool) returns (s': State)
    requires s.thread.Some? && s.thread.value.job.Hooks? && !s.thread.value.job.written
    requires s.thread.value.job.next < Count(chart, s.thread.value.job.event) == |outcomes|
    requires outcomes[s.thread.value.job.next] == Outcome(true, true, true)
    ensures
      var Thread(Hooks(event, next, _, recovered), rec) := s.thread.value;
      var n, rec' := |outcomes|, rec.(progress := Progress(next + 1, |outcomes|));
      && s' == s.(db := Some(rec'), positions := s.positions + [next], installed := s'.installed,
                  thread := Some(Thread(Hooks(event, next + 1, false, recovered), rec')))
      && Exec(n, next, s.db, rec, s.positions, outcomes, cleaned) ==
         Exec(n, next + 1, s'.db, rec', s'.positions, outcomes, cleaned)
      && RunAll(chart, s, Actions(n, next, outcomes, cleaned)) ==
         RunAll(chart, s', Actions(n, next + 1, outcomes, cleaned))
  {
    var next, n := s.thread.value.job.next, |outcomes|;
    s' := Step(chart, Step(chart, s, PrepareHook(true)), CreateHook(true, true));
    RunTwo(chart, s, PrepareHook(true), CreateHook(true, true), Actions(n, next + 1, outcomes, cleaned));
  }

  /** What the outside answers during one call: to each hook, to each main template, and to the removal of resources. */
  datatype Answers = Answers(hooks: HookEvent -> seq<Outcome>, cleaned: HookEvent -> bool,
    names: seq<Option<string>>, removed: bool)

  ghost predicate Fit(chart: Chart, answers: Answers) {
    (forall event :: |answers.hooks(event)| == Count(chart, event)) && |answers.names| == |chart.kinds|
  }

  /**
   * Every hook of an event from number `from` on is deleted, created and ready in turn, and the last clean-up works.
   */
  ghost predicate Passes(answers: Answers, event: HookEvent, from: nat) {
    var outcomes := answers.hooks(event);
    (forall i | from <= i < |outcomes| :: outcomes[i] == Outcome(true, true, true)) &&
    (answers.cleaned(event) || outcomes == [])
  }

  lemma {:induction false} ExecPasses(n: nat, next: nat, db: Option<Record>, rec: Record, created: seq<nat>,
                                          answers: Answers, event: HookEvent)
    requires |answers.hooks(event)| == n && next <= n
    ensures Exec(n, next, db, rec, created, answers.hooks(event), answers.cleaned(event)).ok <==>
      Passes(answers, event, next)
    decreases n - next
  {
    if next < n && answers.hooks(event)[next] == Outcome(true, true, true) {
      var rec' := rec.(progress := Progress(next + 1, n));
      ExecPasses(n, next + 1, Some(rec'), rec', created + [next], answers, event);
    }
  }

  /**
   * What the hook loop does, outright: it goes through hooks `next`, `next` + 1, ... up to the first one, k, that is
   * not deleted, created and ready, or to the end. The hooks before k are created, and k if the cluster accepted it;
   * the persisted progress counts them and k, if k could be deleted.
   */
  ghost predicate Ran(next: nat, k: nat, db: Option<Record>, rec: Record, created: seq<nat>, outcomes: seq<Outcome>,
                      cleaned: bool, r: Result) {
    && next <= k <= |outcomes| && (forall i | next <= i < k :: outcomes[i] == Outcome(true, true, true))
    && (k < |outcomes| ==> outcomes[k] != Outcome(true, true, true))
    && (r.ok <==> k == |outcomes| && (cleaned || outcomes == []))
    && r.created == created + Created(next, k, outcomes)
    && r.rec == Counted(rec, next, Begun(k, outcomes), |outcomes|)
    && r.db == (if Begun(k, outcomes) == next then db else Some(r.rec))
  }

  ghost function Begun(k: nat, outcomes: seq<Outcome>): nat {
    if k < |outcomes| && outcomes[k].deleted then k + 1 else k
  }

  ghost function Created(next: nat, k: nat, outcomes: seq<Outcome>): seq<nat>
    requires next <= k
  {
    seq(k - next, i => next + i) + (if k < |outcomes| && outcomes[k].deleted && outcomes[k].created then [k] else [])
  }

  ghost function Counted(rec: Record, next: nat, begun: nat, n: nat): Record {
    if begun == next then rec else rec.(progress := Itoa(begun) + "/" + Itoa(n))
  }

  lemma {:induction false} ExecMeaning(n: nat, next: nat, db: Option<Record>, rec: Record, created: seq<nat>,
                                           outcomes: seq<Outcome>, cleaned: bool) returns (k: nat)
    requires |outcomes| == n && next <= n
    ensures Ran(next, k, db, rec, created, outcomes, cleaned, Exec(n, next, db, rec, created, outcomes, cleaned))
    decreases n - next
  {
    if next == n || outcomes[next] != Outcome(true, true, true) {
      k := next;
      assert seq(k - next, i => next + i) == [];
    } else {
      var rec' := rec.(progress := Progress(next + 1, n));
      k := ExecMeaning(n, next + 1, Some(rec'), rec', created + [next], outcomes, cleaned);
      assert seq(k - next, i => next + i) == [next] + seq(k - (next + 1), i => next + 1 + i);
      assert created + Created(next, k, outcomes) == created + [next] + Created(next + 1, k, outcomes);
    }
  }

  // The status a call ends with, as a table; None means that the record is gone.

  ghost function PostInstallEnd(answers: Answers, from: nat): Option<Status> {
    Some(if Passes(answers, POST_INSTALL, from) then DONE else POST_INSTALL_FAILED)
  }

  ghost function CreateEnd(answers: Answers): Option<Status> {
    if Passes(answers, PRE_INSTALL, 0) && None !in answers.names then PostInstallEnd(answers, 0) else None
  }

  ghost function PostDeleteEnd(answers: Answers, from: nat, recovered: bool): Option<Status> {
    if !Passes(answers, POST_DELETE, from) then Some(POST_DELETE_FAILED) else if recovered then Some(DELETED) else None
  }

  ghost function PreDeleteEnd(answers: Answers, from: nat, recovered: bool): Option<Status> {
    if !Passes(answers, PRE_DELETE, from) then Some(PRE_DELETE_FAILED)
    else if !answers.removed then Some(if recovered then PRE_DELETE_RUNNING else DELETING)
    else PostDeleteEnd(answers, 0, recovered)
  }

  ghost function StatusOf(db: Option<Record>): Option<Status> {
    if db.None? then None else Some(db.value.status)
  }

  lemma RunMore(chart: Chart, s: State, actions: seq<Action>, a: Action)
    ensures RunAll(chart, s, actions + [a]) == Step(chart, RunAll(chart, s, actions), a)
  {
    RunAllAppend(chart, s, actions, [a]);
    RunOne(chart, RunAll(chart, s, actions), a);
  }

  class Client {
    const chart: Chart

    /** The persisted record. */
    var db: Option<Record>

    /** The thread's copy of the record. */
    var rec: Record

    /** The hooks of this phase the cluster has seen. */
    var created: seq<nat>

    /** The machine's state, up to date between calls. */
    ghost var state: State

    ghost predicate Valid()
      reads this
    {
      && Fits(chart) && HookInv(chart, state) && LifeInv(chart, state)
      && state.thread.None? && db == state.db && created == state.positions
    }

    constructor (chart: Chart)
      requires Fits(chart)
      ensures Valid() && this.chart == chart && state == INITIAL
    {
      this.chart, db, rec, created, state := chart, None, Record(DELETED, "", []), [], INITIAL;
      assert Increasing(INITIAL.installed, 0);
    }

    /** A plugin that starts again and finds what another one has left. */
    constructor Restarted(chart: Chart, db: Option<Record>, created: seq<nat>, ghost left: State)
      requires Fits(chart) && HookInv(chart, left) && LifeInv(chart, left)
      requires left.thread.None? && left.db == db && left.positions == created
      ensures Valid() && this.chart == chart && state == left
    {
      this.chart, this.db, rec, this.created, state := chart, db, Record(DELETED, "", []), created, left;
    }

    // -------------------------------------------------------------- hook.go

    /** Progress is persisted before a hook is created, so that a restart continues with the next one. */
    method ExecHook(event: HookEvent, startIndex: nat, outcomes: seq<Outcome>, cleaned: bool)
      returns (ok: bool, ghost k: nat)
      requires startIndex <= Count(chart, event) == |outcomes|
      modifies this`db, this`rec, this`created
      ensures Result(ok, db, rec, created) ==
              Exec(|outcomes|, startIndex, old(db), old(rec), old(created), outcomes, cleaned)
      ensures Ran(startIndex, k, old(db), old(rec), old(created), outcomes, cleaned, Result(ok, db, rec, created))
    {
      var n := |outcomes|;
      k := ExecMeaning(n, startIndex, db, rec, created, outcomes, cleaned);
      for index := startIndex to n
        invariant Exec(n, index, db, rec, created, outcomes, cleaned) ==
                  Exec(n, startIndex, old(db), old(rec), old(created), outcomes, cleaned)
      {
        if !outcomes[index].deleted {
          return false, k;
        }
        rec := rec.(progress := Progress(index + 1, n));
        db := Some(rec);
        if !outcomes[index].created {
          return false, k;
        }
        created := created + [index];
        if !outcomes[index].ready {
          return false, k;
        }
      }
      ok := cleaned || n == 0;
    }

    /** The hooks of one phase, as steps of the machine; `before` is its state when the verdict is known. */
    method RunHooks(event: HookEvent, startIndex: nat, answers: Answers, ghost s: State)
      returns (ok: bool, ghost actions: seq<Action>, ghost before: State)
      requires Fit(chart, answers) && startIndex <= Count(chart, event)
      requires s.thread.Some? && s.thread.value.rec == rec && s.db == db && s.positions == created
      requires s.thread.value.job.Hooks? && !s.thread.value.job.written
      requires s.thread.value.job.event == event && s.thread.value.job.next == startIndex
      modifies this`db, this`rec, this`created
      ensures before.db == db && before.positions == created
      ensures rec.status == old(rec.status) && rec.resources == old(rec.resources) && (db == old(db) || db == Some(rec))
      ensures ok ==> created == old(created) + seq(Count(chart, event) - startIndex, i => startIndex + i)
      ensures ok <==> Passes(answers, event, startIndex)
      ensures RunAll(chart, s, actions) ==
        if ok then HooksEnd(before, event, s.thread.value.job.recovered, rec) else HooksFail(before, event, rec)
    {
      var outcomes := answers.hooks(event);
      ExecPasses(|outcomes|, startIndex, db, rec, created, answers, event);
      ExecIsRun(chart, s, outcomes, answers.cleaned(event));
      actions := Actions(|outcomes|, startIndex, outcomes, answers.cleaned(event));
      ghost var k;
      ok, k := ExecHook(event, startIndex, outcomes, answers.cleaned(event));
      before := s.(db := db, positions := created, installed := RunAll(chart, s, actions).installed);
    }

    // -------------------------------------------------------------- instance.go

    /** Create: both phases of hooks and the main resources, as one run of the machine from the unborn instance. */
    method Create(answers: Answers) returns (ghost actions: seq<Action>)
      requires Valid() && !state.born && Fit(chart, answers)
      modifies this
      ensures Valid() && state == RunAll(chart, old(state), actions)
      ensures db.Some? <==>
        && (forall i | 0 <= i < Count(chart, PRE_INSTALL) :: answers.hooks(PRE_INSTALL)[i] == Outcome(true, true, true))
        && (answers.cleaned(PRE_INSTALL) || Count(chart, PRE_INSTALL) == 0) && None !in answers.names
      ensures db.Some? ==>
        var hooks := answers.hooks(POST_INSTALL);
        && db.value.status in {DONE, POST_INSTALL_FAILED}
        && (db.value.status == DONE <==>
            (forall i | 0 <= i < |hooks| :: hooks[i] == Outcome(true, true, true))
            && (answers.cleaned(POST_INSTALL) || hooks == []))
      ensures db.Some? ==> |db.value.resources| == |chart.kinds| && forall i | 0 <= i < |chart.kinds| ::
        db.value.resources[i] == Resource(chart.kinds[i], answers.names[i].value)
      ensures db.Some? && db.value.status == DONE && Count(chart, POST_INSTALL) > 0 ==>
        created == seq(Count(chart, POST_INSTALL), i => i)
    {
      ghost var start := state;
      rec := Record(PRE_INSTALL_RUNNING, "", []);
      db, created := Some(rec), [];
      actions := [Install];
      RunOne(chart, start, Install);
      var ok;
      ghost var more, before;
      ok, more, before := RunHooks(PRE_INSTALL, 0, answers, Step(chart, start, Install));
      RunAllAppend(chart, start, actions, more);
      actions := actions + more;
      if !ok {
        db := None;
      } else {
        rec := rec.(status := CREATING);
        db := Some(rec);
        more := CreateMain(answers, RunAll(chart, start, actions));
        RunAllAppend(chart, start, actions, more);
        actions := actions + more;
      }
      state := RunAll(chart, start, actions);
      RunAllKeeps(chart, start, actions);
    }

    /** The main resources, and what follows once they are there. */
    method CreateMain(answers: Answers, ghost s: State) returns (ghost actions: seq<Action>)
      requires Fit(chart, answers)
      requires s.thread == Some(Thread(Main([]), rec)) && s.db == db && s.positions == created
      modifies this`db, this`rec, this`created
      ensures
        var end := RunAll(chart, s, actions);
        db == end.db && created == end.positions && end.thread.None?
      ensures StatusOf(db) == if None !in answers.names then PostInstallEnd(answers, 0) else None
      ensures db.Some? ==> |db.value.resources| == |chart.kinds| && forall i | 0 <= i < |chart.kinds| ::
        db.value.resources[i] == Resource(chart.kinds[i], answers.names[i].value)
      ensures StatusOf(db) == Some(DONE) && Count(chart, POST_INSTALL) > 0 ==>
        created == seq(Count(chart, POST_INSTALL), i => i)
    {
      var ok, resources;
      ok, resources, actions := CreateTemplates(answers.names, s);
      if !ok {
        db := None;
        return;
      }
      rec := rec.(status := CREATED, resources := resources);
      db := Some(rec);
      RunMore(chart, s, actions, Action.CreateMain(None));
      actions := actions + [Action.CreateMain(None)];
      if Count(chart, POST_INSTALL) != 0 {
        rec := rec.(status := POST_INSTALL_RUNNING, progress := "");
        created := [];
        ghost var more := PostInstall(0, answers, RunAll(chart, s, actions));
        RunAllAppend(chart, s, actions, more);
        actions := actions + more;
      } else {
        rec := rec.(status := DONE);
        db := Some(rec);
        RunMore(chart, s, actions, Close);
        actions := actions + [Close];
      }
    }

    method CreateTemplates(names: seq<Option<string>>, ghost s: State)
      returns (ok: bool, resources: seq<Resource>, ghost actions: seq<Action>)
      requires s.thread == Some(Thread(Main([]), rec)) && |names| == |chart.kinds|
      ensures ok <==> None !in names
      ensures ok ==>
        |resources| == |chart.kinds| && RunAll(chart, s, actions) == s.(thread := Some(Thread(Main(resources), rec)))
      ensures ok ==> forall i | 0 <= i < |resources| :: resources[i] == Resource(chart.kinds[i], names[i].value)
      ensures !ok ==> RunAll(chart, s, actions) == Stop(s, None)
    {
      resources, actions := [], [];
      for i := 0 to |names|
        invariant |resources| == i && None !in names[..i]
        invariant forall k | 0 <= k < i :: names[k].Some? && resources[k] == Resource(chart.kinds[k], names[k].value)
        invariant RunAll(chart, s, actions) == s.(thread := Some(Thread(Main(resources), rec)))
      {
        RunMore(chart, s, actions, Action.CreateMain(names[i]));
        actions := actions + [Action.CreateMain(names[i])];
        if names[i].None? {
          return false, resources, actions;
        }
        resources := resources + [Resource(chart.kinds[i], names[i].value)];
      }
      ok := true;
    }

    /** The thread that runs the post-install hooks, after an installation or after a restart. */
    method PostInstall(startIndex: nat, answers: Answers, ghost s: State) returns (ghost actions: seq<Action>)
      requires Fit(chart, answers) && startIndex <= Count(chart, POST_INSTALL)
      requires s.db == db && s.positions == created
      requires s.thread == Some(Thread(Hooks(POST_INSTALL, startIndex, false, false), rec))
      modifies this`db, this`rec, this`created
      ensures
        var end := RunAll(chart, s, actions);
        db == end.db && created == end.positions && end.thread.None?
      ensures StatusOf(db) == PostInstallEnd(answers, startIndex)
      ensures db.value.resources == old(rec).resources
      ensures StatusOf(db) == Some(DONE) ==>
        created == old(created) + seq(Count(chart, POST_INSTALL) - startIndex, i => startIndex + i)
    {
      var ok;
      ghost var before;
      ok, actions, before := RunHooks(POST_INSTALL, startIndex, answers, s);
      rec := rec.(status := if ok then DONE else POST_INSTALL_FAILED);
      db := Some(rec);
    }

    /** Delete: one run of the machine, to the removal of the record or to the step that fails. */
    method Delete(answers: Answers) returns (ghost actions: seq<Action>)
      requires Valid() && Fit(chart, answers)
      modifies this
      ensures Valid() && state == RunAll(chart, old(state), actions)
      ensures StatusOf(db) ==
        if old(StatusOf(db)) == None || old(StatusOf(db)) == Some(DELETED) then None
        else if !Passes(answers, PRE_DELETE, 0) then Some(PRE_DELETE_FAILED)
        else if !answers.removed then Some(DELETING)
        else if !Passes(answers, POST_DELETE, 0) then Some(POST_DELETE_FAILED)
        else None
      ensures db.Some? ==> old(db).Some? && db.value.resources == old(db).value.resources
    {
      actions := [];
      if db.None? {
        return;
      }
      ghost var start := state;
      actions := [Action.Delete];
      RunOne(chart, start, Action.Delete);
      if db.value.status == DELETED {
        db := None;
      } else {
        rec := db.value.(status := PRE_DELETE_RUNNING, progress := "");
        db, created := Some(rec), [];
        ghost var more := PreDelete(0, false, answers, Step(chart, start, Action.Delete));
        RunAllAppend(chart, start, actions, more);
        actions := actions + more;
      }
      state := RunAll(chart, start, actions);
      RunAllKeeps(chart, start, actions);
    }

    /** The pre-delete hooks and everything after them, in a deletion or after a restart. */
    method PreDelete(startIndex: nat, recovered: bool, answers: Answers, ghost s: State)
        returns (ghost actions: seq<Action>)
      requires Fit(chart, answers) && startIndex <= Count(chart, PRE_DELETE)
      requires s.db == db && s.positions == created
      requires s.thread == Some(Thread(Hooks(PRE_DELETE, startIndex, false, recovered), rec))
      requires db == Some(rec) && rec.status == PRE_DELETE_RUNNING
      modifies this`db, this`rec, this`created
      ensures
        var end := RunAll(chart, s, actions);
        db == end.db && created == end.positions && end.thread.None?
      ensures StatusOf(db) == PreDeleteEnd(answers, startIndex, recovered)
      ensures db.Some? ==> db.value.resources == old(rec).resources
    {
      var ok;
      ghost var before;
      ok, actions, before := RunHooks(PRE_DELETE, startIndex, answers, s);
      if !ok {
        rec := rec.(status := PRE_DELETE_FAILED);
        db := Some(rec);
        return;
      }
      if !recovered {
        rec := rec.(status := DELETING);
        db := Some(rec);
      }
      RunMore(chart, s, actions, Remove(answers.removed));
      actions := actions + [Remove(answers.removed)];
      if !answers.removed {
        return;
      }
      if recovered || Count(chart, POST_DELETE) != 0 {
        rec := rec.(progress := "");
        created := [];
        ghost var more := RunPostDelete(0, !recovered, answers, RunAll(chart, s, actions));
        RunAllAppend(chart, s, actions, more);
        actions := actions + more;
      } else {
        db := None;
      }
    }

    method RunPostDelete(startIndex: nat, clearDb: bool, answers: Answers, ghost s: State)
        returns (ghost actions: seq<Action>)
      requires Fit(chart, answers) && startIndex <= Count(chart, POST_DELETE)
      requires s.db == Some(rec.(status := POST_DELETE_RUNNING)) && s.positions == created
      requires s.thread == Some(Thread(Hooks(POST_DELETE, startIndex, false, !clearDb), s.db.value))
      modifies this`db, this`rec, this`created
      ensures
        var end := RunAll(chart, s, actions);
        db == end.db && created == end.positions && end.thread.None?
      ensures StatusOf(db) == PostDeleteEnd(answers, startIndex, !clearDb)
      ensures db.Some? ==> db.value.resources == old(rec).resources
    {
      rec := rec.(status := POST_DELETE_RUNNING);
      db := Some(rec);
      var ok;
      ghost var before;
      ok, actions, before := RunHooks(POST_DELETE, startIndex, answers, s);
      if !ok {
        rec := rec.(status := POST_DELETE_FAILED);
        db := Some(rec);
      } else if clearDb {
        db := None;
      } else {
        rec := rec.(status := DELETED);
        db := Some(rec);
      }
    }

    /**
     * RecoverCreateOrDelete: continues an instance that was stopped in one of three phases, and leaves any other
     * alone.
     */
    method RecoverCreateOrDelete(answers: Answers) returns (ghost actions: seq<Action>)
      requires Valid() && Fit(chart, answers)
      modifies this
      ensures Valid() && state == RunAll(chart, old(state), actions)
      ensures !Saves(old(state)) ==> db == old(db) && created == old(created)
      ensures Saves(old(state)) ==>
        var k := Completed(old(db).value.progress);
        && k.Some? && k.value >= 1
        && (old(db).value.status == POST_INSTALL_RUNNING ==>
            StatusOf(db) == Some(if Passes(answers, POST_INSTALL, k.value) then DONE else POST_INSTALL_FAILED))
        && (old(db).value.status == PRE_DELETE_RUNNING ==>
            StatusOf(db) == if !Passes(answers, PRE_DELETE, k.value) then Some(PRE_DELETE_FAILED)
                            else if !answers.removed then Some(PRE_DELETE_RUNNING)
                            else Some(if Passes(answers, POST_DELETE, 0) then DELETED else POST_DELETE_FAILED))
        && (old(db).value.status == POST_DELETE_RUNNING ==>
            StatusOf(db) == if Passes(answers, POST_DELETE, k.value) then None else Some(POST_DELETE_FAILED))
      ensures db.Some? ==> old(db).Some? && db.value.resources == old(db).value.resources
    {
      actions := [];
      if db.None? || Resumed(db.value.status).None? {
        return;
      }
      var completed := Completed(db.value.progress);
      if completed.None? {
        if Saves(state) {
          SavedIsReadable(chart, state);
        }
        return;
      }
      ghost var start := state;
      RecoverPoint(chart, start);
      rec := db.value;
      actions := [Recover];
      RunOne(chart, start, Recover);
      ghost var s, more := Step(chart, start, Recover), [];
      if rec.status == POST_INSTALL_RUNNING {
        more := PostInstall(completed.value, answers, s);
      } else if rec.status == PRE_DELETE_RUNNING {
        more := PreDelete(completed.value, true, answers, s);
      } else {
        more := RunPostDelete(completed.value, true, answers, s);
      }
      RunAllAppend(chart, start, actions, more);
      actions := actions + more;
      state := RunAll(chart, start, actions);
      RunAllKeeps(chart, start, actions);
    }
  }

  lemma SavedIsReadable(chart: Chart, s: State)
    requires HookInv(chart, s) && Fits(chart) && Saves(s)
    ensures Completed(s.db.value.progress).Some?
  {
    var n := Count(chart, Resumed(s.db.value.status).value);
    var k: nat :| 1 <= k <= n && s.db.value.progress == Progress(k, n);
    ProgressReadsBack(k, n);
  }

  /** Where recovery takes up the work. */
  lemma RecoverPoint(chart: Chart, s: State)
    requires HookInv(chart, s) && Fits(chart) && s.thread.None?
    requires s.db.Some? && Resumed(s.db.value.status).Some? && Completed(s.db.value.progress).Some?
    ensures Saves(s)
    ensures
      var event, k := Resumed(s.db.value.status).value, Completed(s.db.value.progress).value;
      && 1 <= k <= Count(chart, event)
      && Step(chart, s, Recover) == s.(thread := Some(Thread(Hooks(event, k, false, event == PRE_DELETE), s.db.value)))
  {
    var n := Count(chart, Resumed(s.db.value.status).value);
    assert Completed("") == None;
    var k :| 1 <= k <= n && s.db.value.progress == Progress(k, n);
    ProgressReadsBack(k, n);
  }

  // ---------------------------------------------------------------- main resources

  /** Creating one of these succeeds, and changes nothing, when it is already there. */
  predicate Skipped(kind: string) {
    kind == "CustomResourceDefinition" || kind == "Namespace"
  }

  function Elements(s: seq<Resource>): set<Resource> {
    set r | r in s
  }

  /** A template fails in its turn: it is refused, or there is already one of that name whose kind is not skipped. */
  ghost predicate Fails(cluster: set<Resource>, templates: seq<Resource>, refused: set<Resource>, i: nat)
    requires i < |templates|
  {
    templates[i] in refused || (!Skipped(templates[i].kind) && templates[i] in cluster + Elements(templates[..i]))
  }

  /** The number of templates that are created: all before n succeed, and n is the end or fails. */
  ghost predicate IsFirstFailure(cluster: set<Resource>, templates: seq<Resource>, refused: set<Resource>, n: nat) {
    && n <= |templates| && (forall i | 0 <= i < n :: !Fails(cluster, templates, refused, i))
    && (n < |templates| ==> Fails(cluster, templates, refused, n))
  }

  lemma CreatedMeaning(cluster: set<Resource>, templates: seq<Resource>, refused: set<Resource>, n: nat)
    requires IsFirstFailure(cluster, templates, refused, n)
    ensures
      var created := templates[..n];
      && (forall i | 0 <= i < n ::
        created[i] !in refused && (created[i] in cluster + Elements(created[..i]) ==> Skipped(created[i].kind)))
      && (n < |templates| ==>
        templates[n] in refused || (templates[n] in cluster + Elements(created) && !Skipped(templates[n].kind)))
      && (n == |templates| <==> forall i | 0 <= i < |templates| :: !Fails(cluster, templates, refused, i))
  {
    var created := templates[..n];
    forall i | 0 <= i < n
      ensures created[i] !in refused && (created[i] in cluster + Elements(created[..i]) ==> Skipped(created[i].kind))
    {
      assert !Fails(cluster, templates, refused, i) && created[..i] == templates[..i];
    }
  }

  lemma ElementsReversed(s: seq<Resource>, t: seq<Resource>)
    requires |s| == |t| && forall i | 0 <= i < |s| :: t[i] == s[|s| - 1 - i]
    ensures Elements(t) == Elements(s)
  {
    forall r ensures r in s <==> r in t {
      if r in s {
        var i :| 0 <= i < |s| && s[i] == r;
        assert t[|s| - 1 - i] == r;
      }
      if r in t {
        var i :| 0 <= i < |t| && t[i] == r;
        assert s[|s| - 1 - i] == r;
      }
    }
  }

  /** helm.GetReverseK8sResources. */
  method GetReverse(resources: seq<Resource>) returns (reversed: seq<Resource>)
    ensures |reversed| == |resources|
    ensures forall i | 0 <= i < |resources| :: reversed[i] == resources[|resources| - 1 - i]
  {
    reversed := [];
    var i := |resources| - 1;
    while i >= 0
      invariant -1 <= i < |resources| && |reversed| == |resources| - 1 - i
      invariant forall k | 0 <= k < |reversed| :: reversed[k] == resources[|resources| - 1 - k]
    {
      reversed := reversed + [resources[i]];
      i := i - 1;
    }
  }

  lemma RemoveAdded(before: set<Resource>, added: set<Resource>)
    ensures before + added - added == before <==> added * before == {}
    ensures before + added - added == before - added
  {
    if before + added - added == before {
      forall r | r in added ensures r !in before {
        assert r !in before + added - added;
      }
    }
    if added * before == {} {
      forall r | r in before ensures r !in added {
        assert r !in added * before;
      }
    }
  }

  class KubernetesClient {
    /** The resources in the cluster. */
    var cluster: set<Resource>

    method CreateKind(r: Resource, refused: set<Resource>) returns (ok: bool)
      modifies this
      ensures ok <==> r !in refused && (r in old(cluster) ==> Skipped(r.kind))
      ensures cluster == if ok then old(cluster) + {r} else old(cluster)
    {
      if r in refused || (r in cluster && !Skipped(r.kind)) {
        return false;
      }
      cluster := cluster + {r};
      ok := true;
    }

    /** All templates are created in turn, up to one that fails. */
    method CreateResources(templates: seq<Resource>, refused: set<Resource>) returns (created: seq<Resource>, ok: bool)
      modifies this
      ensures created <= templates && cluster == old(cluster) + Elements(created)
      ensures forall i | 0 <= i < |created| ::
        created[i] !in refused && (created[i] in old(cluster) + Elements(created[..i]) ==> Skipped(created[i].kind))
      ensures |created| < |templates| ==>
        var r := templates[|created|];
        r in refused || (r in old(cluster) + Elements(created) && !Skipped(r.kind))
      ensures ok <==> created == templates
      ensures ok <==> forall i | 0 <= i < |templates| :: !Fails(old(cluster), templates, refused, i)
      ensures IsFirstFailure(old(cluster), templates, refused, |created|)
    {
      created := [];
      for i := 0 to |templates|
        invariant created == templates[..i] && cluster == old(cluster) + Elements(created)
        invariant forall k | 0 <= k < i :: !Fails(old(cluster), templates, refused, k)
      {
        var done := CreateKind(templates[i], refused);
        if !done {
          break;
        }
        created := created + [templates[i]];
      }
      CreatedMeaning(old(cluster), templates, refused, |created|);
      ok := |created| == |templates|;
    }

    /** A resource that is not there counts as deleted. */
    method DeleteKind(r: Resource, stuck: set<Resource>) returns (ok: bool)
      modifies this
      ensures ok <==> r !in old(cluster) || r !in stuck
      ensures cluster == if ok then old(cluster) - {r} else old(cluster)
    {
      ok := r !in cluster || r !in stuck;
      if ok {
        cluster := cluster - {r};
      }
    }

    /** Stops at the first resource the cluster does not let go. */
    method DeleteResources(resources: seq<Resource>, stuck: set<Resource>) returns (ok: bool)
      modifies this
      ensures ok <==> Elements(resources) * old(cluster) * stuck == {}
      ensures ok ==> cluster == old(cluster) - Elements(resources)
      ensures !ok ==> exists k | 0 <= k < |resources| ::
        && resources[k] in old(cluster) * stuck
        && cluster == old(cluster) - Elements(resources[..k]) && Elements(resources[..k]) * old(cluster) * stuck == {}
        && resources[k] in cluster
    {
      for i := 0 to |resources|
        invariant cluster == old(cluster) - Elements(resources[..i])
        invariant Elements(resources[..i]) * old(cluster) * stuck == {}
      {
        assert resources[..i + 1] == resources[..i] + [resources[i]];
        assert Elements(resources[..i + 1]) == Elements(resources[..i]) + {resources[i]};
        var deleted := DeleteKind(resources[i], stuck);
        if !deleted {
          assert resources[i] in Elements(resources) * old(cluster) * stuck;
          return false;
        }
      }
      assert resources[..|resources|] == resources;
      ok := true;
    }

    /**
     * The main resources of an installation. When a creation fails, what was created is deleted in reverse; the cluster
     * is then as before exactly when none of the templates before the one that fails was there before.
     */
    method InstallMain(templates: seq<Resource>, refused: set<Resource>, stuck: set<Resource>)
      returns (created: seq<Resource>, ok: bool)
      modifies this
      ensures created <= templates && (ok <==> created == templates)
      ensures forall i | 0 <= i < |created| ::
        created[i] !in refused && (created[i] in old(cluster) + Elements(created[..i]) ==> Skipped(created[i].kind))
      ensures |created| < |templates| ==>
        var r := templates[|created|];
        r in refused || (r in old(cluster) + Elements(created) && !Skipped(r.kind))
      ensures ok <==> forall i | 0 <= i < |templates| :: !Fails(old(cluster), templates, refused, i)
      ensures IsFirstFailure(old(cluster), templates, refused, |created|)
      ensures ok ==> cluster == old(cluster) + Elements(templates)
      ensures !ok && Elements(created) * stuck == {} ==>
        && cluster == old(cluster) - Elements(created)
        && (cluster == old(cluster) <==> !LosesPrior(old(cluster), templates, refused))
    {
      created, ok := CreateResources(templates, refused);
      if !ok {
        LosesPriorMeaning(old(cluster), templates, refused, |created|);
        if |created| > 0 {
          var _ := RemoveMain(created, stuck);
        }
        RemoveAdded(old(cluster), Elements(created));
      }
    }

    /** What a deletion, or the compensation of an installation, does with a list of created resources. */
    method RemoveMain(created: seq<Resource>, stuck: set<Resource>) returns (ok: bool)
      modifies this
      ensures ok <==> Elements(created) * old(cluster) * stuck == {}
      ensures ok ==> cluster == old(cluster) - Elements(created)
      ensures !ok ==> exists k | 0 <= k < |created| :: created[k] in old(cluster) * stuck && created[k] in cluster
    {
      var reversed := GetReverse(created);
      ElementsReversed(created, reversed);
      ok := DeleteResources(reversed, stuck);
      if !ok {
        ghost var k :| 0 <= k < |reversed| && reversed[k] in old(cluster) * stuck && reversed[k] in cluster;
        assert created[|created| - 1 - k] == reversed[k];
      }
    }

    /** Installing and deleting again gives the cluster back exactly when no template was there before. */
    method InstallAndDelete(templates: seq<Resource>, refused: set<Resource>)
      requires forall i | 0 <= i < |templates| :: !Fails(cluster, templates, refused, i)
      modifies this
      ensures cluster == old(cluster) <==> forall r | r in templates :: r !in old(cluster)
    {
      var created, ok := InstallMain(templates, refused, {});
      var _ := RemoveMain(created, {});
      RemoveAdded(old(cluster), Elements(templates));
      assert Elements(templates) * old(cluster) == {} <==> forall r | r in templates :: r !in old(cluster);
    }

    /** The input that shows it: a definition that was there before is gone after an installation that fails on it. */
    method PriorDefinitionIsLost(definition: Resource, deployment: Resource)
      requires definition.kind == "CustomResourceDefinition" && deployment.kind == "Deployment"
      requires cluster == {definition}
      modifies this
      ensures cluster == {}
    {
      var templates := [definition, deployment];
      assert !Fails(cluster, templates, {deployment}, 0) && Fails(cluster, templates, {deployment}, 1);
      var created, ok := InstallMain(templates, {deployment}, {});
      assert |created| == 1 && created[0] == definition;
    }
  }

  /** A template before the first one that fails was there before. */
  ghost predicate LosesPrior(cluster: set<Resource>, templates: seq<Resource>, refused: set<Resource>) {
    exists i | 0 <= i < |templates| ::
      templates[i] in cluster && forall j: nat | j <= i :: !Fails(cluster, templates, refused, j)
  }

  /** What is lost is what was created although it was there; only a kind whose creation is skipped can be. */
  lemma LosesPriorMeaning(cluster: set<Resource>, templates: seq<Resource>, refused: set<Resource>, n: nat)
    requires n < |templates| && IsFirstFailure(cluster, templates, refused, n)
    ensures LosesPrior(cluster, templates, refused) <==> Elements(templates[..n]) * cluster != {}
    ensures forall r | r in Elements(templates[..n]) * cluster :: Skipped(r.kind)
  {
    var created := templates[..n];
    if r :| r in Elements(created) * cluster {
      var i :| 0 <= i < n && created[i] == r;
      assert templates[i] in cluster && forall j: nat | j <= i :: !Fails(cluster, templates, refused, j);
    }
    if LosesPrior(cluster, templates, refused) {
      var i :| 0 <= i < |templates| && templates[i] in cluster
        && forall j: nat | j <= i :: !Fails(cluster, templates, refused, j);
      assert i < n;
      assert created[i] in Elements(created) * cluster;
    }
    forall r | r in Elements(created) * cluster ensures Skipped(r.kind) {
      var i :| 0 <= i < n && created[i] == r;
      assert !Fails(cluster, templates, refused, i);
    }
  }
}
