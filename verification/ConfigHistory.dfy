/**
 * What the operations of ConfigClient do to the history of one configuration: the stored configuration, the log of
 * numbered versions, and the tags. ConfigClient.dfy proves that the key-value code does exactly this.
 */
module ConfigHistory {
  import opened Wrappers
  import opened Decimal

  datatype Config = Config(name: string, template: string, description: string, values: map<string, string>)

  /** Config{}: what the code records as the predecessor of a first version. */
  const NO_CONFIG := Config("", "", "", map[])

  datatype Action = POST | PUT | DELETE

  /** One version: configVersionDBContent. */
  datatype Entry = Entry(current: Config, previous: Config, action: Action, resources: seq<string>)

  /** Version n is log[n - 1], and the version counter is |log|. */
  datatype History = History(stored: Option<Config>, log: seq<Entry>, tags: map<string, nat>)

  const EMPTY := History(None, [], map[])

  datatype ConfigId = ConfigId(inst: string, name: string)

  type State = map<ConfigId, History>

  datatype Error = Incomplete | UnknownInstance | NotFound | ApplyFailed | BadTag | NoIndex | BadIndex | VersionMissing

  /** Done carries the version in the response; 0 is the empty response. */
  datatype Reply = Done(version: nat) | Failed(error: Error)

  function At(s: State, id: ConfigId): History {
    if id in s then s[id] else EMPTY
  }

  /** A new version on top: the predecessor is whatever was stored. */
  function Append(h: History, p: Config, action: Action, resources: seq<string>): History {
    h.(stored := Some(p),
       log := h.log + [Entry(p, if h.stored.Some? then h.stored.value else NO_CONFIG, action, resources)])
  }

  function Create(s: State, known: set<string>, inst: string, p: Config, applied: Option<seq<string>>): (State, Reply) {
    var id := ConfigId(inst, p.name);
    if p.name == "" || p.template == "" || p.values == map[] then (s, Failed(Incomplete))
    else if inst !in known then (s, Failed(UnknownInstance))
    else if At(s, id).stored.Some? then (s, Done(0))
    else if applied.None? then (s, Failed(ApplyFailed))
    else (s[id := Append(At(s, id), p, POST, applied.value)], Done(|At(s, id).log| + 1))
  }

  /** The addressed configuration must exist, but the new version is filed under the name inside the payload. */
  function Update(s: State, known: set<string>, id: ConfigId, p: Config, applied: Option<seq<string>>): (State, Reply) {
    var target := ConfigId(id.inst, p.name);
    if p.values == map[] then (s, Failed(Incomplete))
    else if id.inst !in known then (s, Failed(UnknownInstance))
    else if At(s, id).stored.None? then (s, Failed(NotFound))
    else if applied.None? then (s, Failed(ApplyFailed))
    else (s[target := Append(At(s, target), p, PUT, applied.value)], Done(|At(s, target).log| + 1))
  }

  function Delete(s: State, known: set<string>, id: ConfigId, applies: bool): (State, Reply) {
    var h := At(s, id);
    if id.inst !in known then (s, Failed(UnknownInstance))
    else if h.stored.None? then (s, Failed(NotFound))
    else if !applies then (s, Failed(ApplyFailed))
    else (s[id := Append(h, h.stored.value, DELETE, [])], Done(|h.log| + 1))
  }

  function DeleteAll(s: State, known: set<string>, id: ConfigId, applies: bool): (State, Reply) {
    var h := At(s, id);
    if id.inst !in known || h.stored.None? then (s, Failed(NotFound))
    else if h.log == [] then (s, Failed(VersionMissing))
    else if h.log[|h.log| - 1].action != DELETE && !applies then (s, Failed(ApplyFailed))
    else (s[id := EMPTY], Done(0))
  }

  function Tagit(s: State, known: set<string>, id: ConfigId, tag: string): (State, Reply) {
    var h := At(s, id);
    if id.inst !in known then (s, Failed(UnknownInstance))
    else (s[id := h.(tags := h.tags[tag := |h.log|])], Done(0))
  }

  /**
   * The first loop of Rollback, standing at version i: reinstate the predecessor of every version above r. `ok` are
   * the versions whose reinstatement the cluster accepts. Version 1 can never be undone: the loop reads version 0.
   */
  function Unwind(h: History, i: nat, r: nat, ok: set<nat>): (Option<Config>, Option<Error>)
    requires i <= |h.log|
    decreases i
  {
    if i <= r then (h.stored, None)
    else if i == 1 then (h.stored, Some(VersionMissing))
    else if i !in ok then (h.stored, Some(ApplyFailed))
    else Unwind(h.(stored := Some(h.log[i - 1].previous)), i - 1, r, ok)
  }

  function RollbackTo(h: History, r: nat, ok: set<nat>): (History, Reply) {
    var (stored, error) := Unwind(h, |h.log|, r, ok);
    if error.Some? then (h.(stored := stored), Failed(error.value))
    else (h.(stored := stored, log := if r < |h.log| then h.log[..r] else h.log), Done(0))
  }

  /** The version a request names: a tag wins over a version number. */
  function Target(h: History, known: bool, tag: string, version: string): (Option<nat>, Error) {
    if tag != "" then
      (if known && tag in h.tags then Some(h.tags[tag]) else None, BadTag)
    else if version == "" then (None, NoIndex)
    else match Atoi(version)
      case None => (None, BadIndex)
      case Some(i) => (if known then Some(ToUint(i)) else None, UnknownInstance)
  }

  function Rollback(s: State, known: set<string>, id: ConfigId, tag: string, version: string,
                    ok: set<nat>): (State, Reply) {
    var h := At(s, id);
    var (target, error) := Target(h, id.inst in known, tag, version);
    if target.None? then (s, Failed(error))
    else
      var (h', reply) := RollbackTo(h, target.value, ok);
      (if h' == h then s else s[id := h'], reply)
  }

  // ---------------------------------------------------------------- one history

  /** What every operation keeps, whatever its input: all configurations in a history carry its name. */
  ghost predicate WellFormed(h: History, name: string) {
    && (h.stored.None? <==> h.log == [])
    && (h.stored.Some? ==> h.stored.value.name == name)
    && (forall i | 0 <= i < |h.log| :: h.log[i].current.name == name)
    && (forall i | 1 <= i < |h.log| :: h.log[i].previous.name == name && h.log[i].action != POST)
    && (h.log != [] ==> h.log[0].previous == NO_CONFIG)
  }

  /** Each version starts from the one below. */
  ghost predicate Chained(h: History) {
    forall i | 1 <= i < |h.log| :: h.log[i].previous == h.log[i - 1].current
  }

  /** The top version is what is stored. */
  ghost predicate OnTop(h: History) {
    h.log != [] ==> h.stored == Some(h.log[|h.log| - 1].current)
  }

  /** The log is an undo log of what is stored. */
  ghost predicate Consistent(h: History) {
    OnTop(h) && Chained(h)
  }

  /** Whether nothing stops the walk from version i down to r. */
  ghost predicate Reaches(i: nat, r: nat, ok: set<nat>) {
    forall j | r < j <= i :: j in ok && j != 1
  }

  lemma {:induction false} UnwindMeaning(h: History, i: nat, r: nat, ok: set<nat>)
    requires i <= |h.log|
    ensures Unwind(h, i, r, ok).1 == None <==> Reaches(i, r, ok)
    ensures r < i && Reaches(i, r, ok) ==> Unwind(h, i, r, ok).0 == Some(h.log[r].previous)
    ensures !Reaches(i, r, ok) ==> exists k | r < k <= i ::
      && (k == 1 || k !in ok) && Reaches(i, k, ok)
      && Unwind(h, i, r, ok).1 == Some(if k == 1 then VersionMissing else ApplyFailed)
      && Unwind(h, i, r, ok).0 == if k == i then h.stored else Some(h.log[k].previous)
    decreases i
  {
    if i <= r {
    } else if i == 1 || i !in ok {
      assert !(i in ok && i != 1);
      assert Reaches(i, i, ok);
    } else {
      var h' := h.(stored := Some(h.log[i - 1].previous));
      UnwindMeaning(h', i - 1, r, ok);
      assert forall k: nat | k < i :: Reaches(i, k, ok) <==> Reaches(i - 1, k, ok);
      assert Unwind(h, i, r, ok) == Unwind(h', i - 1, r, ok);
      if !Reaches(i - 1, r, ok) {
        var k :| r < k <= i - 1 && (k == 1 || k !in ok) && Reaches(i - 1, k, ok)
          && Unwind(h', i - 1, r, ok).1 == Some(if k == 1 then VersionMissing else ApplyFailed)
          && Unwind(h', i - 1, r, ok).0 == if k == i - 1 then h'.stored else Some(h'.log[k].previous);
        assert Reaches(i, k, ok);
      } else if r < i - 1 {
      } else {
        assert Reaches(i, r, ok);
      }
    }
  }

  /**
   * Rollback is a true undo, whatever is stored: a rollback to 1 <= r < current that the cluster accepts leaves the log
   * 1..r, and it leaves the configuration version r installed exactly when version r + 1 was filed over that one.
   */
  lemma RollbackIsUndo(h: History, r: nat, ok: set<nat>)
    requires 1 <= r < |h.log|
    requires forall j | r < j <= |h.log| :: j in ok
    ensures RollbackTo(h, r, ok) == (History(Some(h.log[r].previous), h.log[..r], h.tags), Done(0))
    ensures OnTop(RollbackTo(h, r, ok).0) <==> h.log[r].previous == h.log[r - 1].current
    ensures Chained(h) ==> Consistent(RollbackTo(h, r, ok).0)
  {
    UnwindMeaning(h, |h.log|, r, ok);
  }

  /**
   * A rollback that was cut short, to any target, does not matter to a later one that goes back at least one version.
   */
  lemma RetryRestores(h: History, r1: nat, ok1: set<nat>, r: nat, ok: set<nat>)
    requires RollbackTo(h, r1, ok1).1.Failed? && 1 <= r < |h.log|
    requires forall j | r < j <= |h.log| :: j in ok
    ensures RollbackTo(RollbackTo(h, r1, ok1).0, r, ok) == RollbackTo(h, r, ok)
    ensures Chained(h) ==> Consistent(RollbackTo(RollbackTo(h, r1, ok1).0, r, ok).0)
  {
    RollbackSucceedsExactly(h, r1, ok1);
    RollbackIsUndo(h, r, ok);
    RollbackIsUndo(RollbackTo(h, r1, ok1).0, r, ok);
  }

  /**
   * What a rollback that was cut short left behind is put right by one that goes back a version, not by one that does
   * not.
   */
  lemma RepairsExactly(h: History, r: nat, ok: set<nat>)
    requires Chained(h) && !OnTop(h) && RollbackTo(h, r, ok).1 == Done(0)
    ensures OnTop(RollbackTo(h, r, ok).0) <==> r < |h.log|
  {
    RollbackSucceedsExactly(h, r, ok);
    if r < |h.log| {
      RollbackIsUndo(h, r, ok);
    }
  }

  /** A rollback succeeds exactly when it has nothing to undo, or a target of at least 1 and a willing cluster. */
  lemma RollbackSucceedsExactly(h: History, r: nat, ok: set<nat>)
    ensures RollbackTo(h, r, ok).1 == Done(0) <==>
      r >= |h.log| || (1 <= r && forall j | r < j <= |h.log| :: j in ok)
    ensures RollbackTo(h, r, ok).1.Failed? ==>
      RollbackTo(h, r, ok).0.log == h.log && RollbackTo(h, r, ok).0.tags == h.tags
  {
    UnwindMeaning(h, |h.log|, r, ok);
    if r == 0 && |h.log| > 0 {
      assert !(1 in ok && 1 != 1);
    }
  }

  /** The version at which a failing rollback stops. */
  ghost predicate StopsAt(h: History, r: nat, ok: set<nat>, k: nat) {
    r < k <= |h.log| && (k == 1 || k !in ok) && forall j | k < j <= |h.log| :: j in ok
  }

  /**
   * When rollback keeps the undo log: it succeeds, or the version it stops at holds the configuration the current
   * version holds. The guard in the code lets target 0 through, which always stops at version 1 if not before.
   */
  lemma RollbackKeepsConsistentExactly(h: History, r: nat, ok: set<nat>)
    requires Consistent(h)
    ensures Consistent(RollbackTo(h, r, ok).0) <==>
      || r >= |h.log|
      || (1 <= r && forall j | r < j <= |h.log| :: j in ok)
      || exists k :: StopsAt(h, r, ok, k) && h.log[k - 1].current == h.log[|h.log| - 1].current
  {
    RollbackSucceedsExactly(h, r, ok);
    if r < |h.log| && RollbackTo(h, r, ok).1 == Done(0) {
      RollbackIsUndo(h, r, ok);
    } else if r < |h.log| {
      var k := RollbackStops(h, r, ok);
      assert forall k' | StopsAt(h, r, ok, k') :: k' == k;
    }
  }

  /** A rollback that is cut short at version k leaves the configuration of version k stored. */
  lemma RollbackStops(h: History, r: nat, ok: set<nat>) returns (k: nat)
    requires Consistent(h) && r < |h.log| && RollbackTo(h, r, ok).1 != Done(0)
    ensures StopsAt(h, r, ok, k)
    ensures RollbackTo(h, r, ok) ==
            (h.(stored := Some(h.log[k - 1].current)), Failed(if k == 1 then VersionMissing else ApplyFailed))
  {
    var n := |h.log|;
    UnwindMeaning(h, n, r, ok);
    k :| r < k <= n && (k == 1 || k !in ok) && Reaches(n, k, ok)
      && Unwind(h, n, r, ok).1 == Some(if k == 1 then VersionMissing else ApplyFailed)
      && Unwind(h, n, r, ok).0 == if k == n then h.stored else Some(h.log[k].previous);
  }

  /** The input that shows it: target 0 on two different versions leaves the first one stored under the second. */
  lemma RollbackToZeroBreaksLog(a: Config, b: Config)
    requires a != b
    ensures
      var h := History(Some(b), [Entry(a, NO_CONFIG, POST, []), Entry(b, a, PUT, [])], map[]);
      && Consistent(h)
      && RollbackTo(h, 0, {1, 2}) == (h.(stored := Some(a)), Failed(VersionMissing))
      && !Consistent(h.(stored := Some(a)))
  {
    var h := History(Some(b), [Entry(a, NO_CONFIG, POST, []), Entry(b, a, PUT, [])], map[]);
    assert Unwind(h, 2, 0, {1, 2}) == Unwind(h.(stored := Some(a)), 1, 0, {1, 2});
  }

  // ---------------------------------------------------------------- runs

  datatype Op =
    | OpCreate(inst: string, p: Config, applied: Option<seq<string>>)
    | OpUpdate(id: ConfigId, p: Config, applied: Option<seq<string>>)
    | OpDelete(id: ConfigId, applies: bool)
    | OpDeleteAll(id: ConfigId, applies: bool)
    | OpRollback(id: ConfigId, tag: string, version: string, ok: set<nat>)
    | OpTagit(id: ConfigId, tag: string)

  function Step(s: State, known: set<string>, op: Op): (State, Reply) {
    match op
    case OpCreate(inst, p, applied) => Create(s, known, inst, p, applied)
    case OpUpdate(id, p, applied) => Update(s, known, id, p, applied)
    case OpDelete(id, applies) => Delete(s, known, id, applies)
    case OpDeleteAll(id, applies) => DeleteAll(s, known, id, applies)
    case OpRollback(id, tag, version, ok) => Rollback(s, known, id, tag, version, ok)
    case OpTagit(id, tag) => Tagit(s, known, id, tag)
  }

  /** A run from the empty store in which states[i] is the state before ops[i]. */
  ghost predicate IsRun(known: set<string>, states: seq<State>, ops: seq<Op>) {
    && |states| == |ops| + 1
    && states[0] == map[]
    && forall i | 0 <= i < |ops| :: states[i + 1] == Step(states[i], known, ops[i]).0
  }

  /** No rollback of this configuration among ops[..n] was cut short: each succeeded or was refused without effect. */
  ghost predicate RollbacksClean(known: set<string>, states: seq<State>, ops: seq<Op>, id: ConfigId, n: nat)
    requires |states| == |ops| + 1 && n <= |ops|
  {
    forall i | 0 <= i < n && ops[i].OpRollback? && ops[i].id == id ::
      Step(states[i], known, ops[i]).1 == Done(0) || At(states[i + 1], id) == At(states[i], id)
  }

  ghost predicate AllWellFormed(s: State) {
    forall id {:trigger WellFormed(At(s, id), id.name)} :: WellFormed(At(s, id), id.name)
  }

  lemma UnwindNames(h: History, i: nat, r: nat, ok: set<nat>, name: string)
    requires WellFormed(h, name) && i <= |h.log|
    ensures Unwind(h, i, r, ok).0.Some? <==> h.stored.Some?
    ensures h.stored.Some? ==> Unwind(h, i, r, ok).0.value.name == name
    decreases i
  {
    if i > r && i != 1 && i in ok {
      UnwindNames(h.(stored := Some(h.log[i - 1].previous)), i - 1, r, ok, name);
    }
  }

  lemma RollbackKeepsWellFormed(h: History, r: nat, ok: set<nat>, name: string)
    requires WellFormed(h, name)
    ensures WellFormed(RollbackTo(h, r, ok).0, name)
  {
    UnwindNames(h, |h.log|, r, ok, name);
    RollbackSucceedsExactly(h, r, ok);
  }

  /** Every operation, on every input, keeps entries numbered 1..counter, of one name, with at most the first a POST. */
  lemma StepKeepsWellFormed(s: State, known: set<string>, op: Op)
    requires AllWellFormed(s)
    ensures AllWellFormed(Step(s, known, op).0)
  {
    var s' := Step(s, known, op).0;
    forall id ensures WellFormed(At(s', id), id.name) {
      var h := At(s, id);
      assert WellFormed(h, id.name);
      if op.OpRollback? {
        forall r: nat ensures WellFormed(RollbackTo(h, r, op.ok).0, id.name) {
          RollbackKeepsWellFormed(h, r, op.ok, id.name);
        }
      }
    }
  }

  /** An operation keeps the chain exactly when it does not file a version over something other than the top one. */
  lemma StepKeepsChainExactly(s: State, known: set<string>, op: Op, id: ConfigId)
    requires AllWellFormed(s) && Chained(At(s, id))
    ensures Chained(At(Step(s, known, op).0, id)) <==>
      |At(Step(s, known, op).0, id).log| <= |At(s, id).log| || OnTop(At(s, id))
  {
    var h, h' := At(s, id), At(Step(s, known, op).0, id);
    StepPushesOrPops(s, known, op, id);
    assert h.log[..|h.log|] == h.log;
    if |h'.log| > |h.log| {
      PushKeepsChainExactly(h, h');
    } else {
      assert h'.log == h.log[..|h'.log|];
    }
  }

  lemma PushKeepsChainExactly(h: History, h': History)
    requires Chained(h) && |h'.log| == |h.log| + 1 && h'.log[..|h.log|] == h.log
    requires h.log != [] ==> h.stored == Some(h'.log[|h.log|].previous)
    ensures Chained(h') <==> OnTop(h)
  {
    var n := |h.log|;
    assert forall i | 0 <= i < n :: h'.log[i] == h'.log[..n][i] == h.log[i];
    assert n > 0 ==> h'.log[n - 1] == h.log[n - 1];
  }

  /** Every operation keeps the undo log of a configuration, unless it is a rollback of that one that is cut short. */
  lemma StepKeepsConsistent(s: State, known: set<string>, op: Op, id: ConfigId)
    requires AllWellFormed(s) && Consistent(At(s, id))
    requires op.OpRollback? && op.id == id ==>
      Step(s, known, op).1 == Done(0) || At(Step(s, known, op).0, id) == At(s, id)
    ensures Consistent(At(Step(s, known, op).0, id))
  {
    var h := At(s, id);
    assert WellFormed(h, id.name);
    StepKeepsChainExactly(s, known, op, id);
    if op.OpRollback? && op.id == id && Step(s, known, op).0 != s {
      var r := Target(h, id.inst in known, op.tag, op.version).0.value;
      RollbackSucceedsExactly(h, r, op.ok);
      RollbackKeepsConsistentExactly(h, r, op.ok);
    }
  }

  lemma {:induction false} RunWellFormed(known: set<string>, states: seq<State>, ops: seq<Op>, n: nat)
    requires IsRun(known, states, ops) && n <= |ops|
    ensures AllWellFormed(states[n])
  {
    if n > 0 {
      RunWellFormed(known, states, ops, n - 1);
      StepKeepsWellFormed(states[n - 1], known, ops[n - 1]);
    }
  }

  /** The log of a configuration is an undo log in every run, whatever happens to the others. */
  lemma {:induction false} RunInvariant(known: set<string>, states: seq<State>, ops: seq<Op>, id: ConfigId, n: nat)
    requires IsRun(known, states, ops) && n <= |ops| && RollbacksClean(known, states, ops, id, n)
    ensures WellFormed(At(states[n], id), id.name) && Consistent(At(states[n], id))
  {
    RunWellFormed(known, states, ops, n);
    if n > 0 {
      RunInvariant(known, states, ops, id, n - 1);
      RunWellFormed(known, states, ops, n - 1);
      assert states[n] == Step(states[n - 1], known, ops[n - 1]).0;
      StepKeepsConsistent(states[n - 1], known, ops[n - 1], id);
    }
  }

  /** The configuration whose history an operation may change. */
  function Touched(op: Op): ConfigId {
    match op
    case OpCreate(inst, p, _) => ConfigId(inst, p.name)
    case OpUpdate(id, p, _) => ConfigId(id.inst, p.name)
    case OpDelete(id, _) => id
    case OpDeleteAll(id, _) => id
    case OpRollback(id, _, _, _) => id
    case OpTagit(id, _) => id
  }

  /** A push files what was stored next to the new configuration, under the action of its caller, and keeps the tags. */
  ghost predicate Pushed(h: History, h': History, op: Op) {
    && |h'.log| == |h.log| + 1 && h'.log[..|h.log|] == h.log && h'.tags == h.tags
    && (if h.log == [] then h'.log[|h.log|].previous == NO_CONFIG else h.stored == Some(h'.log[|h.log|].previous))
    && h'.stored == Some(h'.log[|h.log|].current)
    && match op
       case OpCreate(_, p, applied) =>
         h'.stored == Some(p) && h'.log[|h.log|].action == POST && applied == Some(h'.log[|h.log|].resources)
       case OpUpdate(_, p, applied) =>
         h'.stored == Some(p) && h'.log[|h.log|].action == PUT && applied == Some(h'.log[|h.log|].resources)
       case _ =>
         op.OpDelete? && h'.stored == h.stored && h'.log[|h.log|].action == DELETE && h'.log[|h.log|].resources == []
  }

  lemma StepPushes(s: State, known: set<string>, op: Op)
    requires AllWellFormed(s)
    requires Step(s, known, op).1.Done? && Step(s, known, op).1.version > 0
    ensures Step(s, known, op).1.version == |At(s, Touched(op)).log| + 1
    ensures Pushed(At(s, Touched(op)), At(Step(s, known, op).0, Touched(op)), op)
  {
    var h := At(s, Touched(op));
    assert WellFormed(h, Touched(op).name);
    assert h.log[..|h.log|] == h.log;
  }

  /** A pop keeps a prefix of the log, and only a rollback pops; DeleteAll leaves nothing. */
  lemma StepPops(s: State, known: set<string>, op: Op)
    requires Step(s, known, op).1 == Done(0)
    ensures
      var h, h' := At(s, Touched(op)), At(Step(s, known, op).0, Touched(op));
      && (op.OpDeleteAll? ==> h' == EMPTY)
      && (!op.OpDeleteAll? ==> |h'.log| <= |h.log| && h'.log == h.log[..|h'.log|])
      && (!op.OpDeleteAll? && !op.OpRollback? ==> h'.log == h.log && h'.stored == h.stored)
  {
    var h := At(s, Touched(op));
    assert h.log[..|h.log|] == h.log;
  }

  /**
   * Every operation changes at most the history it is about, by a push that answers with its number, by a
   * pop, or by a wipe; a refusal changes nothing but what a rollback that is cut short has stored.
   */
  lemma StepPushesOrPops(s: State, known: set<string>, op: Op, id: ConfigId)
    requires AllWellFormed(s)
    ensures
      var (s', reply) := Step(s, known, op);
      var h, h' := At(s, id), At(s', id);
      && (id != Touched(op) ==> h' == h)
      && (reply.Failed? && !op.OpRollback? ==> h' == h)
      && (reply.Failed? ==> h'.log == h.log && h'.tags == h.tags)
      && (reply.Done? && reply.version > 0 && id == Touched(op) ==> reply.version == |h.log| + 1 && Pushed(h, h', op))
      && (reply == Done(0) && id == Touched(op) ==>
        if op.OpDeleteAll? then h' == EMPTY
        else if op.OpRollback? then |h'.log| <= |h.log| && h'.log == h.log[..|h'.log|]
        else h'.log == h.log && h'.stored == h.stored)
  {
    var reply := Step(s, known, op).1;
    if reply.Done? && reply.version > 0 {
      StepPushes(s, known, op);
    } else if reply == Done(0) {
      StepPops(s, known, op);
    }
  }

  /** One operation appends to a log, cuts it, or leaves it; and only Tagit writes a tag. */
  lemma StepKeepsPrefix(s: State, known: set<string>, op: Op, id: ConfigId, r: nat)
    requires 1 <= r <= |At(s, id).log| && r <= |At(Step(s, known, op).0, id).log|
    ensures At(Step(s, known, op).0, id).log[..r] == At(s, id).log[..r]
    ensures At(Step(s, known, op).0, id).tags ==
            if op.OpTagit? && op.id == id && id.inst in known then At(s, id).tags[op.tag := |At(s, id).log|]
            else At(s, id).tags
  {
  }

  /** The log never fell below r between states t and n. */
  ghost predicate StaysAbove(states: seq<State>, id: ConfigId, r: nat, t: nat, n: nat)
    requires n < |states|
  {
    forall j | t <= j <= n :: r <= |At(states[j], id).log|
  }

  lemma {:induction false} RunKeepsPrefix(known: set<string>, states: seq<State>, ops: seq<Op>, id: ConfigId,
                                              r: nat, t: nat, n: nat)
    requires IsRun(known, states, ops) && t <= n <= |ops| && r >= 1
    requires StaysAbove(states, id, r, t, n)
    ensures At(states[n], id).log[..r] == At(states[t], id).log[..r]
    decreases n
  {
    if t < n {
      RunKeepsPrefix(known, states, ops, id, r, t, n - 1);
      assert states[n] == Step(states[n - 1], known, ops[n - 1]).0;
      StepKeepsPrefix(states[n - 1], known, ops[n - 1], id, r);
    }
  }

  /** Whenever a version was filed directly over version r, version r was what was stored. */
  ghost predicate FiledOver(states: seq<State>, id: ConfigId, r: nat, t: nat, n: nat)
    requires n < |states|
  {
    forall i | t <= i < n && |At(states[i], id).log| == r < |At(states[i + 1], id).log| :: OnTop(At(states[i], id))
  }

  /** Runs without rollbacks of this configuration that are cut short file every version over the one below. */
  lemma CleanRunFilesOver(known: set<string>, states: seq<State>, ops: seq<Op>, id: ConfigId, r: nat, t: nat, n: nat)
    requires IsRun(known, states, ops) && t <= n <= |ops| && RollbacksClean(known, states, ops, id, n)
    ensures FiledOver(states, id, r, t, n) && OnTop(At(states[n], id))
  {
    forall i | 0 <= i <= n ensures OnTop(At(states[i], id)) {
      RunInvariant(known, states, ops, id, i);
    }
  }

  /** Version r + 1 keeps starting from version r. */
  lemma {:induction false} RunKeepsLink(known: set<string>, states: seq<State>, ops: seq<Op>, id: ConfigId,
                                            r: nat, t: nat, n: nat)
    requires IsRun(known, states, ops) && t <= n <= |ops| && r >= 1 && |At(states[t], id).log| == r
    requires StaysAbove(states, id, r, t, n) && FiledOver(states, id, r, t, n)
    ensures |At(states[n], id).log| > r ==> At(states[n], id).log[r].previous == At(states[t], id).log[r - 1].current
    decreases n
  {
    if t < n && |At(states[n], id).log| > r {
      var s, op := states[n - 1], ops[n - 1];
      assert states[n] == Step(s, known, op).0;
      RunKeepsLink(known, states, ops, id, r, t, n - 1);
      if |At(s, id).log| > r {
        EntryStays(s, known, op, id, r);
      } else {
        RunWellFormed(known, states, ops, n - 1);
        PushedOver(known, states, ops, id, r, t, n - 1);
      }
    }
  }

  lemma EntryStays(s: State, known: set<string>, op: Op, id: ConfigId, r: nat)
    requires r < |At(s, id).log| && r < |At(Step(s, known, op).0, id).log|
    ensures At(Step(s, known, op).0, id).log[r] == At(s, id).log[r]
  {
    StepKeepsPrefix(s, known, op, id, r + 1);
    assert At(Step(s, known, op).0, id).log[..r + 1][r] == At(Step(s, known, op).0, id).log[r];
    assert At(s, id).log[..r + 1][r] == At(s, id).log[r];
  }

  lemma PushedOver(known: set<string>, states: seq<State>, ops: seq<Op>, id: ConfigId, r: nat, t: nat, n: nat)
    requires IsRun(known, states, ops) && t <= n < |ops| && r >= 1 && |At(states[t], id).log| == r
    requires StaysAbove(states, id, r, t, n) && AllWellFormed(states[n])
    requires |At(states[n], id).log| == r < |At(states[n + 1], id).log| && OnTop(At(states[n], id))
    ensures At(states[n + 1], id).log[r].previous == At(states[t], id).log[r - 1].current
  {
    RunKeepsPrefix(known, states, ops, id, r, t, n);
    var h, h' := At(states[n], id), At(states[n + 1], id);
    assert states[n + 1] == Step(states[n], known, ops[n]).0;
    assert WellFormed(h, id.name);
    assert h.log[..r] == h.log && At(states[t], id).log[..r] == At(states[t], id).log;
    assert h.stored == Some(h'.log[r].previous);
  }

  /**
   * Over every run of every operation, refused, cut short and repeated rollbacks included: if version r was on top at
   * time t, the counter never fell below r until time n, and no version was filed over r while something else was
   * stored, then an accepted Rollback to r brings back version r, the log and the counter of time t; exactly when there
   * is something above r to undo, or version r is what is stored anyway.
   */
  lemma RollbackRestores(known: set<string>, states: seq<State>, ops: seq<Op>, id: ConfigId, t: nat, n: nat,
                         ok: set<nat>)
    requires IsRun(known, states, ops) && t <= n <= |ops|
    requires |At(states[t], id).log| >= 1 && StaysAbove(states, id, |At(states[t], id).log|, t, n)
    requires FiledOver(states, id, |At(states[t], id).log|, t, n)
    requires forall j | |At(states[t], id).log| < j <= |At(states[n], id).log| :: j in ok
    ensures
      var before, now := At(states[t], id), At(states[n], id);
      var r := |before.log|;
      var (after, reply) := RollbackTo(now, r, ok);
      && reply == Done(0) && after.log == before.log && after.tags == now.tags
      && (after.stored == Some(before.log[r - 1].current) <==> r < |now.log| || OnTop(now))
      && (OnTop(before) && (r < |now.log| || OnTop(now)) ==> after == before.(tags := now.tags))
  {
    var before, now := At(states[t], id), At(states[n], id);
    var r := |before.log|;
    RunKeepsPrefix(known, states, ops, id, r, t, n);
    assert before.log[..r] == before.log;
    if r < |now.log| {
      RunKeepsLink(known, states, ops, id, r, t, n);
      RollbackIsUndo(now, r, ok);
    } else {
      assert now.log[..r] == now.log;
    }
  }

  /** The input that shows why: a version filed over what a rollback that was cut short has left cannot be undone. */
  lemma UpdateOverCutRollback(a: Config, b: Config, c: Config)
    requires a != b
    ensures
      var h := History(Some(b), [Entry(a, NO_CONFIG, POST, []), Entry(b, a, PUT, [])], map[]);
      var cut := RollbackTo(h, 0, {1, 2}).0;
      && Consistent(h) && Chained(cut) && !OnTop(cut)
      && !Chained(Append(cut, c, PUT, []))
      && RollbackTo(Append(cut, c, PUT, []), 2, {3}).0 == cut
  {
    RollbackToZeroBreaksLog(a, b);
    var h := History(Some(b), [Entry(a, NO_CONFIG, POST, []), Entry(b, a, PUT, [])], map[]);
    var pushed := Append(RollbackTo(h, 0, {1, 2}).0, c, PUT, []);
    assert pushed.log[2].previous == a && pushed.log[1].current == b;
    RollbackIsUndo(pushed, 2, {3});
    assert pushed.log[..2] == h.log;
  }

  lemma {:induction false} RunKeepsTag(known: set<string>, states: seq<State>, ops: seq<Op>, id: ConfigId,
                                           tag: string, r: nat, t: nat, n: nat)
    requires IsRun(known, states, ops) && t <= n <= |ops| && r >= 1
    requires StaysAbove(states, id, r, t, n)
    requires forall j | t <= j < n :: ops[j] != OpTagit(id, tag)
    requires tag in At(states[t], id).tags
    ensures tag in At(states[n], id).tags && At(states[n], id).tags[tag] == At(states[t], id).tags[tag]
    decreases n
  {
    if t < n {
      RunKeepsTag(known, states, ops, id, tag, r, t, n - 1);
      assert states[n] == Step(states[n - 1], known, ops[n - 1]).0;
      StepKeepsPrefix(states[n - 1], known, ops[n - 1], id, r);
    }
  }

  /**
   * Tags are stable names: a tag set at time t, with the counter never below its value then and no second tagging
   * with the same name, still brings back the configuration stored at time t, whatever version number the request also
   * carries. (DeleteAll would empty the log.)
   */
  lemma TagRestores(known: set<string>, states: seq<State>, ops: seq<Op>, id: ConfigId, tag: string,
                    version: string, t: nat, n: nat, ok: set<nat>)
    requires IsRun(known, states, ops) && t < n <= |ops|
    requires ops[t] == OpTagit(id, tag) && tag != "" && id.inst in known
    requires |At(states[t], id).log| >= 1 && StaysAbove(states, id, |At(states[t], id).log|, t, n)
    requires FiledOver(states, id, |At(states[t], id).log|, t, n)
    requires forall j | t < j < n :: ops[j] != OpTagit(id, tag)
    requires forall j | |At(states[t], id).log| < j <= |At(states[n], id).log| :: j in ok
    ensures
      var before, now := At(states[t], id), At(states[n], id);
      var r := |before.log|;
      var (s', reply) := Step(states[n], known, OpRollback(id, tag, version, ok));
      && reply == Done(0) && At(s', id).log == before.log && At(s', id).tags == now.tags
      && (At(s', id).stored == Some(before.log[r - 1].current) <==> r < |now.log| || OnTop(now))
      && (OnTop(before) && (r < |now.log| || OnTop(now)) ==> At(s', id) == before.(tags := now.tags))
  {
    var r := |At(states[t], id).log|;
    RunKeepsTag(known, states, ops, id, tag, r, t + 1, n);
    RollbackRestores(known, states, ops, id, t, n, ok);
  }

  /** The same for a rollback by version number. */
  lemma VersionRestores(known: set<string>, states: seq<State>, ops: seq<Op>, id: ConfigId, version: string,
                        t: nat, n: nat, ok: set<nat>)
    requires IsRun(known, states, ops) && t <= n <= |ops| && id.inst in known
    requires |At(states[t], id).log| >= 1 && StaysAbove(states, id, |At(states[t], id).log|, t, n)
    requires FiledOver(states, id, |At(states[t], id).log|, t, n)
    requires Atoi(version) == Some(|At(states[t], id).log|)
    requires forall j | |At(states[t], id).log| < j <= |At(states[n], id).log| :: j in ok
    ensures
      var before, now := At(states[t], id), At(states[n], id);
      var r := |before.log|;
      var (s', reply) := Step(states[n], known, OpRollback(id, "", version, ok));
      && reply == Done(0) && At(s', id).log == before.log && At(s', id).tags == now.tags
      && (At(s', id).stored == Some(before.log[r - 1].current) <==> r < |now.log| || OnTop(now))
      && (OnTop(before) && (r < |now.log| || OnTop(now)) ==> At(s', id) == before.(tags := now.tags))
  {
    var r := |At(states[t], id).log|;
    AtoiFits(version);
    RollbackRestores(known, states, ops, id, t, n, ok);
  }

  lemma UpdateAppends(s: State, known: set<string>, id: ConfigId, p: Config)
    requires id.inst in known && At(s, id).stored.Some? && p.name == id.name && p.values != map[]
    ensures At(Step(s, known, OpUpdate(id, p, Some([]))).0, id) == Append(At(s, id), p, PUT, [])
  {
  }

  /** A tag on the current version has nothing to undo. */
  lemma TagOnTop(s: State, known: set<string>, id: ConfigId, tag: string)
    requires id.inst in known && tag != "" && tag in At(s, id).tags && At(s, id).tags[tag] == |At(s, id).log|
    ensures Step(s, known, OpRollback(id, tag, "", {})) == (s, Done(0))
  {
  }

  lemma BackToFirst(s: State, known: set<string>, id: ConfigId)
    requires id.inst in known && Consistent(At(s, id)) && |At(s, id).log| == 2
    ensures At(Step(s, known, OpRollback(id, "", "1", {2})).0, id) ==
            History(Some(At(s, id).log[0].current), At(s, id).log[..1], At(s, id).tags)
  {
    assert Atoi("1") == Some(1) by {
      AtoiOfItoa(1);
      assert Itoa(1) == "1";
    }
    RollbackIsUndo(At(s, id), 1, {2});
  }

  /** Once the counter has been below the tagged version, the tag names whatever was filed there since. */
  lemma TagGoesStale(a: Config, b: Config, c: Config)
    requires a.name == b.name == c.name != "" && a.template != "" && b != c
    requires a.values != map[] && b.values != map[] && c.values != map[]
    ensures
      var id, known := ConfigId("i", a.name), {"i"};
      var s1 := Step(map[], known, OpCreate("i", a, Some([]))).0;
      var s2 := Step(s1, known, OpUpdate(id, b, Some([]))).0;
      var s3 := Step(s2, known, OpTagit(id, "v2")).0;
      var s4 := Step(s3, known, OpRollback(id, "", "1", {2})).0;
      var s5 := Step(s4, known, OpUpdate(id, c, Some([]))).0;
      && Step(s5, known, OpRollback(id, "v2", "", {})).1 == Done(0)
      && At(Step(s5, known, OpRollback(id, "v2", "", {})).0, id).stored == Some(c)
  {
    var id, known := ConfigId("i", a.name), {"i"};
    var ea, eb, ec := Entry(a, NO_CONFIG, POST, []), Entry(b, a, PUT, []), Entry(c, a, PUT, []);
    var s1 := Step(map[], known, OpCreate("i", a, Some([]))).0;
    assert At(s1, id) == History(Some(a), [ea], map[]);
    var s2 := Step(s1, known, OpUpdate(id, b, Some([]))).0;
    assert At(s2, id) == History(Some(b), [ea, eb], map[]) by { UpdateAppends(s1, known, id, b); }
    var s3 := Step(s2, known, OpTagit(id, "v2")).0;
    assert At(s3, id) == History(Some(b), [ea, eb], map["v2" := 2]);
    var s4 := Step(s3, known, OpRollback(id, "", "1", {2})).0;
    assert At(s4, id) == History(Some(a), [ea], map["v2" := 2]) by { BackToFirst(s3, known, id); }
    var s5 := Step(s4, known, OpUpdate(id, c, Some([]))).0;
    assert At(s5, id) == History(Some(c), [ea, ec], map["v2" := 2]) by { UpdateAppends(s4, known, id, c); }
    TagOnTop(s5, known, id, "v2");
  }

  // ---------------------------------------------------------------- what each request does, outright

  lemma CreateExactly(s: State, known: set<string>, inst: string, p: Config, applied: Option<seq<string>>)
    ensures
      var id := ConfigId(inst, p.name);
      var h, (s', reply) := At(s, id), Step(s, known, OpCreate(inst, p, applied));
      var complete := p.name != "" && p.template != "" && p.values != map[];
      && (reply == Failed(Incomplete) <==> !complete)
      && (reply == Failed(UnknownInstance) <==> complete && inst !in known)
      && (reply == Done(0) <==> complete && inst in known && h.stored.Some?)
      && (reply == Failed(ApplyFailed) <==> complete && inst in known && h.stored.None? && applied.None?)
      && (reply == Done(|h.log| + 1) <==> complete && inst in known && h.stored.None? && applied.Some?)
      && s' == (if reply != Done(|h.log| + 1) then s
                else s[id := History(Some(p), h.log + [Entry(p, NO_CONFIG, POST, applied.value)], h.tags)])
  {
  }

  lemma UpdateExactly(s: State, known: set<string>, id: ConfigId, p: Config, applied: Option<seq<string>>)
    ensures
      var target := ConfigId(id.inst, p.name);
      var h, (s', reply) := At(s, target), Step(s, known, OpUpdate(id, p, applied));
      && (reply == Failed(Incomplete) <==> p.values == map[])
      && (reply == Failed(UnknownInstance) <==> p.values != map[] && id.inst !in known)
      && (reply == Failed(NotFound) <==> p.values != map[] && id.inst in known && At(s, id).stored.None?)
      && (reply == Failed(ApplyFailed) <==>
          p.values != map[] && id.inst in known && At(s, id).stored.Some? && applied.None?)
      && (reply == Done(|h.log| + 1) <==>
          p.values != map[] && id.inst in known && At(s, id).stored.Some? && applied.Some?)
      && (reply != Done(|h.log| + 1) ==> s' == s)
      && (reply == Done(|h.log| + 1) && h.stored.Some? ==>
          s' == s[target := History(Some(p), h.log + [Entry(p, h.stored.value, PUT, applied.value)], h.tags)])
      && (reply == Done(|h.log| + 1) && h.stored.None? ==>
          s' == s[target := History(Some(p), h.log + [Entry(p, NO_CONFIG, PUT, applied.value)], h.tags)])
  {
  }

  lemma DeleteExactly(s: State, known: set<string>, id: ConfigId, applies: bool)
    ensures
      var h, (s', reply) := At(s, id), Step(s, known, OpDelete(id, applies));
      && (reply == Failed(UnknownInstance) <==> id.inst !in known)
      && (reply == Failed(NotFound) <==> id.inst in known && h.stored.None?)
      && (reply == Failed(ApplyFailed) <==> id.inst in known && h.stored.Some? && !applies)
      && (reply == Done(|h.log| + 1) <==> id.inst in known && h.stored.Some? && applies)
      && s' == (if reply != Done(|h.log| + 1) then s
                else s[id := h.(log := h.log + [Entry(h.stored.value, h.stored.value, DELETE, [])])])
  {
  }

  /** DeleteAll wipes exactly what Cleanup counts on; a last version that is a DELETE needs no more consent. */
  lemma DeleteAllExactly(s: State, known: set<string>, id: ConfigId, applies: bool)
    requires WellFormed(At(s, id), id.name)
    ensures
      var h, (s', reply) := At(s, id), Step(s, known, OpDeleteAll(id, applies));
      && (reply == Failed(NotFound) <==> id.inst !in known || h.stored.None?)
      && (reply == Failed(ApplyFailed) <==>
          id.inst in known && h.stored.Some? && h.log[|h.log| - 1].action != DELETE && !applies)
      && (reply == Done(0) <==>
          id.inst in known && h.stored.Some? && (h.log[|h.log| - 1].action == DELETE || applies))
      && s' == (if reply == Done(0) then s[id := History(None, [], map[])] else s)
      && (id.inst in known ==> (reply == Done(0) <==> Removable(h, if applies then {id.name} else {})))
  {
  }

  lemma TagitExactly(s: State, known: set<string>, id: ConfigId, tag: string)
    ensures
      var h, (s', reply) := At(s, id), Step(s, known, OpTagit(id, tag));
      && reply == (if id.inst in known then Done(0) else Failed(UnknownInstance))
      && s' == (if id.inst in known then s[id := h.(tags := h.tags[tag := |h.log|])] else s)
  {
  }

  lemma AtoiFits(version: string)
    ensures Atoi(version).Some? && Atoi(version).value >= 0 ==> ToUint(Atoi(version).value) == Atoi(version).value
    ensures Atoi(version).Some? && Atoi(version).value < 0 ==> ToUint(Atoi(version).value) >= INT64_LIMIT
  {
  }

  /**
   * A rollback by number goes to the version of that number: exactly the versions above it are gone, and what the first
   * of them replaced is stored. A number at or above the counter, or below zero, changes nothing.
   */
  lemma RollbackToVersion(s: State, known: set<string>, id: ConfigId, version: string, ok: set<nat>)
    requires id.inst in known && Atoi(version).Some? && |At(s, id).log| < INT64_LIMIT
    ensures
      var h, r, (s', reply) := At(s, id), Atoi(version).value, Step(s, known, OpRollback(id, "", version, ok));
      && (1 <= r < |h.log| && (forall j | r < j <= |h.log| :: j in ok) ==>
          reply == Done(0) && s' == s[id := History(Some(h.log[r].previous), h.log[..r], h.tags)])
      && (r < 0 || r >= |h.log| ==> reply == Done(0) && s' == s)
      && (0 <= r < |h.log| && !(r >= 1 && forall j | r < j <= |h.log| :: j in ok) ==>
          reply.Failed? && At(s', id).log == h.log && At(s', id).tags == h.tags)
  {
    var h := At(s, id);
    AtoiFits(version);
    var r := ToUint(Atoi(version).value);
    RollbackSucceedsExactly(h, r, ok);
    if 1 <= r < |h.log| && (forall j | r < j <= |h.log| :: j in ok) {
      RollbackIsUndo(h, r, ok);
    }
  }

  /** A rollback by number in its decimal form. */
  lemma RollbackToNumber(s: State, known: set<string>, id: ConfigId, r: nat, ok: set<nat>)
    requires id.inst in known && 1 <= r < |At(s, id).log| < INT64_LIMIT
    requires forall j | r < j <= |At(s, id).log| :: j in ok
    ensures Step(s, known, OpRollback(id, "", Itoa(r), ok)) ==
            (s[id := History(Some(At(s, id).log[r].previous), At(s, id).log[..r], At(s, id).tags)], Done(0))
  {
    AtoiOfItoa(r);
    RollbackToVersion(s, known, id, Itoa(r), ok);
  }

  /** A tag that is given wins over a version number, and stands for the number it was set to. */
  lemma TagWins(s: State, known: set<string>, id: ConfigId, tag: string, version: string, ok: set<nat>)
    requires tag != "" && id.inst in known && tag in At(s, id).tags && At(s, id).tags[tag] < INT64_LIMIT
    ensures Step(s, known, OpRollback(id, tag, version, ok)) ==
            Step(s, known, OpRollback(id, "", Itoa(At(s, id).tags[tag]), ok))
  {
    AtoiOfItoa(At(s, id).tags[tag]);
  }

  /** The requests that are refused before anything is read from the log, and what they are told. */
  lemma RollbackRefusals(s: State, known: set<string>, id: ConfigId, tag: string, version: string, ok: set<nat>)
    ensures
      var (s', reply) := Step(s, known, OpRollback(id, tag, version, ok));
      && (reply == Failed(BadTag) <==> tag != "" && (id.inst !in known || tag !in At(s, id).tags))
      && (reply == Failed(NoIndex) <==> tag == "" && version == "")
      && (reply == Failed(BadIndex) <==> tag == "" && version != "" && Atoi(version).None?)
      && (reply == Failed(UnknownInstance) <==> tag == "" && Atoi(version).Some? && id.inst !in known)
      && (reply in {Failed(BadTag), Failed(NoIndex), Failed(BadIndex), Failed(UnknownInstance)} ==> s' == s)
      && (forall other | other != id :: At(s', other) == At(s, other))
  {
    var h := At(s, id);
    forall r: nat ensures RollbackTo(h, r, ok).1 in {Done(0), Failed(VersionMissing), Failed(ApplyFailed)} {
      UnwindMeaning(h, |h.log|, r, ok);
    }
  }

  // ---------------------------------------------------------------- the first version

  /** A history begins with a POST exactly when Create began it; else an Update addressed to another name did. */
  lemma StepFirstEntry(s: State, known: set<string>, op: Op, id: ConfigId)
    requires AllWellFormed(s) && At(s, id).log == [] && At(Step(s, known, op).0, id).log != []
    ensures At(Step(s, known, op).0, id).log[0].action == POST <==> op.OpCreate?
    ensures !op.OpCreate? ==> op.OpUpdate? && op.p.name == id.name && op.id.name != id.name
  {
    assert WellFormed(At(s, id), id.name);
  }

  /** Over every run: version 1 is a POST exactly when the last step that began the history was a Create. */
  lemma {:induction false} FirstEntryIsPostExactly(known: set<string>, states: seq<State>, ops: seq<Op>, id: ConfigId,
                                                   n: nat)
      returns (i: nat)
    requires IsRun(known, states, ops) && n <= |ops| && At(states[n], id).log != []
    ensures i < n && At(states[i], id).log == [] && StaysAbove(states, id, 1, i + 1, n)
    ensures At(states[n], id).log[0].action == POST <==> ops[i].OpCreate?
  {
    var s, op := states[n - 1], ops[n - 1];
    assert states[n] == Step(s, known, op).0;
    if At(s, id).log == [] {
      i := n - 1;
      RunWellFormed(known, states, ops, n - 1);
      StepFirstEntry(s, known, op, id);
    } else {
      i := FirstEntryIsPostExactly(known, states, ops, id, n - 1);
      EntryStays(s, known, op, id, 0);
    }
  }

  /** While every Update carries the name it is addressed to, version 1 of every history is its only POST. */
  lemma RunFirstIsPost(known: set<string>, states: seq<State>, ops: seq<Op>, id: ConfigId, n: nat)
    requires IsRun(known, states, ops) && n <= |ops|
    requires forall i | 0 <= i < n && ops[i].OpUpdate? :: ops[i].p.name == ops[i].id.name
    ensures forall i | 0 <= i < |At(states[n], id).log| :: At(states[n], id).log[i].action == POST <==> i == 0
  {
    RunWellFormed(known, states, ops, n);
    assert WellFormed(At(states[n], id), id.name);
    if At(states[n], id).log != [] {
      var i := FirstEntryIsPostExactly(known, states, ops, id, n);
      assert states[i + 1] == Step(states[i], known, ops[i]).0;
      RunWellFormed(known, states, ops, i);
      StepFirstEntry(states[i], known, ops[i], id);
    }
  }

  /** The input that shows it: an Update of "x" that carries the name "y" begins the history of "y" with a PUT. */
  lemma UpdateBeginsHistory(a: Config, b: Config)
    requires a.name == "x" && b.name == "y" && a.template != "" && a.values != map[] && b.values != map[]
    ensures
      var known := {"i"};
      var s1 := Step(map[], known, OpCreate("i", a, Some([]))).0;
      var s2 := Step(s1, known, OpUpdate(ConfigId("i", "x"), b, Some([]))).0;
      At(s2, ConfigId("i", "y")).log == [Entry(b, NO_CONFIG, PUT, [])]
  {
    var known := {"i"};
    var s1 := Step(map[], known, OpCreate("i", a, Some([]))).0;
    assert At(s1, ConfigId("i", "x")).stored == Some(a);
    assert At(s1, ConfigId("i", "y")) == EMPTY;
  }

  // ---------------------------------------------------------------- cleanup of an instance

  /** Whether DeleteAll removes this history: its last version is a DELETE already, or the cluster accepts one. */
  predicate Removable(h: History, accepted: set<string>) {
    h.stored.Some? && h.log != [] && (h.log[|h.log| - 1].action == DELETE || h.stored.value.name in accepted)
  }

  /** Cleanup has dealt with this configuration unless it is among the remaining ones. */
  ghost predicate CleanedAt(was: State, now: State, id: ConfigId, inst: string, accepted: set<string>,
                            remaining: set<Config>) {
    At(now, id) == (
      if id.inst == inst && Removable(At(was, id), accepted) && At(was, id).stored.value !in remaining then EMPTY
      else At(was, id))
  }

  ghost predicate CleanedUp(was: State, now: State, inst: string, accepted: set<string>, remaining: set<Config>) {
    forall id {:trigger At(now, id)} :: CleanedAt(was, now, id, inst, accepted, remaining)
  }

  lemma CleanupContinues(was: State, before: State, now: State, inst: string, accepted: set<string>,
                         remaining: set<Config>, config: Config)
    requires CleanedUp(was, before, inst, accepted, remaining) && config in remaining
    requires At(was, ConfigId(inst, config.name)).stored == Some(config)
    requires AllWellFormed(was)
    requires now == if Removable(At(before, ConfigId(inst, config.name)), accepted)
                    then before[ConfigId(inst, config.name) := EMPTY] else before
    ensures CleanedUp(was, now, inst, accepted, remaining - {config})
  {
    forall id: ConfigId ensures CleanedAt(was, now, id, inst, accepted, remaining - {config}) {
      assert CleanedAt(was, before, id, inst, accepted, remaining) && WellFormed(At(was, id), id.name);
      assert id.inst == inst && At(was, id).stored == Some(config) ==> id == ConfigId(inst, config.name);
    }
  }
}
