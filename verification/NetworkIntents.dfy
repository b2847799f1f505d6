/**
 * Network intents of clusters and the contexts made from them (scheduler.go, network.go, providernet.go,
 * ovncontroller.go, cluster.go): what each operation does to the shared database and the context store.
 */
module NetworkIntents {
  import opened Wrappers

  datatype StateValue = Created | Approved | Applied | Instantiated | Terminated

  datatype ActionEntry = ActionEntry(state: StateValue, contextId: string)

  type ClusterId = (string, string)

  datatype Other = Label(name: string) | KvPairs(name: string)

  /** A cluster's action log, its intents by name, and its other child documents. */
  datatype Cluster = Cluster(actions: seq<ActionEntry>, networks: map<string, string>,
    providerNets: map<string, string>,
    others: set<Other>)

  datatype Kind = Network | ProviderNetwork

  datatype ResourceName = ResourceName(intent: string, kind: Kind)

  datatype ContextStatus =
    Instantiating | InstantiateDone | InstantiateFailed | Terminating | TerminateDone | TerminateFailed

  /** What rsync is asked to install: a resource for each intent, and the order instruction. */
  datatype Context =
    Context(resources: map<ResourceName, string>, order: seq<ResourceName>, status: Option<ContextStatus>)

  datatype World = World(clusters: map<ClusterId, Cluster>, contexts: map<string, Context>)

  /** Silent: the code refuses, but wraps a nil error and so reports success. */
  datatype Outcome = Done | Silent | Failed

  datatype Failure = Nothing | OvnFails | RsyncFails

  /** The text under which a resource is added to the context. */
  function Text(r: ResourceName): string {
    r.intent + "+" + if r.kind == Network then "Network" else "ProviderNetwork"
  }

  lemma TextCutsBack(r: ResourceName)
    ensures |Text(r)| >= 8 && (Text(r)[|Text(r)| - 8] == '+' <==> r.kind == Network)
    ensures r.intent == if r.kind == Network then Text(r)[..|Text(r)| - 8] else Text(r)[..|Text(r)| - 16]
    ensures Text(r)[|r.intent|..] == if r.kind == Network then "+Network" else "+ProviderNetwork"
  {
    var s, tail := Text(r), if r.kind == Network then "+Network" else "+ProviderNetwork";
    assert s == r.intent + tail;
    assert s[|s| - 8] == tail[|tail| - 8];
  }

  /** A network and a provider network never meet under one resource name. */
  lemma TextInjective(a: ResourceName, b: ResourceName)
    requires Text(a) == Text(b)
    ensures a == b
  {
    TextCutsBack(a);
    TextCutsBack(b);
  }

  function Current(c: Cluster): Option<StateValue> {
    if c.actions == [] then None else Some(c.actions[|c.actions| - 1].state)
  }

  function LastContext(c: Cluster): string {
    if c.actions == [] then "" else c.actions[|c.actions| - 1].contextId
  }

  /** GetContextIdsFromStateInfo: the distinct non-empty ids. */
  function ContextIds(actions: seq<ActionEntry>): set<string> {
    set i | 0 <= i < |actions| && actions[i].contextId != "" :: actions[i].contextId
  }

  predicate Editable(c: Cluster) {
    Current(c) == Some(Created) || Current(c) == Some(Terminated)
  }

  function ResourcesOf(c: Cluster): map<ResourceName, string> {
    map r: ResourceName | r in (set n | n in c.networks :: ResourceName(n, Network))
                             + (set n | n in c.providerNets :: ResourceName(n, ProviderNetwork)) ::
      if r.kind == Network then c.networks[r.intent] else c.providerNets[r.intent]
  }

  // ---------------------------------------------------------------- operations

  datatype Op =
    | CreateCluster(id: ClusterId, providerKnown: bool)
    | PutNetwork(id: ClusterId, name: string, spec: string, upsert: bool)
    | DropNetwork(id: ClusterId, name: string)
    | PutProviderNet(id: ClusterId, name: string, spec: string, upsert: bool)
    | DropProviderNet(id: ClusterId, name: string)
    | SetOthers(id: ClusterId, others: set<Other>)
    | Apply(id: ClusterId, ctx: string, order: seq<ResourceName>, failure: Failure)
    | Terminate(id: ClusterId, accepted: bool)
    | Report(ctx: string, status: ContextStatus)                // rsync
    | DeleteCluster(id: ClusterId, ids: seq<string>)

  function WithCluster(w: World, id: ClusterId, c: Cluster): World {
    w.(clusters := w.clusters[id := c])
  }

  /** Deletes contexts one by one and stops at one that cannot be loaded. */
  function DeleteContexts(contexts: map<string, Context>, order: seq<string>): (map<string, Context>, bool)
    decreases |order|
  {
    if order == [] then (contexts, true)
    else if order[0] !in contexts then (contexts, false)
    else DeleteContexts(contexts - {order[0]}, order[1..])
  }

  /** Whether rsync is still at work on the context to be deleted. */
  predicate StillTerminating(w: World, c: Cluster) {
    && LastContext(c) in w.contexts && w.contexts[LastContext(c)].status.Some?
    && w.contexts[LastContext(c)].status.value != TerminateDone
    && w.contexts[LastContext(c)].status.value != TerminateFailed
  }

  predicate HasChildren(c: Cluster) {
    c.networks != map[] || c.providerNets != map[] || c.others != {}
  }

  function Step(w: World, op: Op): (World, Outcome) {
    match op
    case CreateCluster(id, providerKnown) =>
      if !providerKnown || id in w.clusters then (w, Failed)
      else (WithCluster(w, id, Cluster([ActionEntry(Created, "")], map[], map[], {})), Done)
    case PutNetwork(id, name, spec, upsert) =>
      if id !in w.clusters || !Editable(w.clusters[id]) || (name in w.clusters[id].networks && !upsert) then (w, Failed)
      else (WithCluster(w, id, w.clusters[id].(networks := w.clusters[id].networks[name := spec])), Done)
    case DropNetwork(id, name) =>
      if id !in w.clusters || !Editable(w.clusters[id]) then (w, Failed)
      else (WithCluster(w, id, w.clusters[id].(networks := w.clusters[id].networks - {name})), Done)
    case PutProviderNet(id, name, spec, upsert) =>
      if id !in w.clusters || Current(w.clusters[id]).None? then (w, Failed)
      else if !Editable(w.clusters[id]) then (w, Silent)
      else if name in w.clusters[id].providerNets && !upsert then (w, Failed)
      else (WithCluster(w, id, w.clusters[id].(providerNets := w.clusters[id].providerNets[name := spec])), Done)
    case DropProviderNet(id, name) =>
      if id !in w.clusters || Current(w.clusters[id]).None? then (w, Failed)
      else if !Editable(w.clusters[id]) then (w, Silent)
      else (WithCluster(w, id, w.clusters[id].(providerNets := w.clusters[id].providerNets - {name})), Done)
    case SetOthers(id, others) =>
      if id !in w.clusters then (w, Failed) else (WithCluster(w, id, w.clusters[id].(others := others)), Done)
    case Apply(id, ctx, order, failure) =>
      if id !in w.clusters || Current(w.clusters[id]).None? then (w, Failed)
      else if Current(w.clusters[id]) == Some(Applied) then (w, Done)
      else if !Editable(w.clusters[id]) then (w, Silent)
      else if failure != Nothing then (w.(contexts := w.contexts - {ctx}), Failed)
      else
        var c := w.clusters[id];
        (World(w.clusters[id := c.(actions := c.actions + [ActionEntry(Applied, ctx)])],
               w.contexts[ctx := Context(ResourcesOf(c), order, None)]), Done)
    case Terminate(id, accepted) =>
      if id !in w.clusters || Current(w.clusters[id]).None? then (w, Failed)
      else if Current(w.clusters[id]) == Some(Terminated) then (w, Done)
      else if Current(w.clusters[id]) != Some(Applied) then (w, Silent)
      else if !accepted then (w, Failed)
      else
        var c := w.clusters[id];
        (WithCluster(w, id, c.(actions := c.actions + [ActionEntry(Terminated, LastContext(c))])), Done)
    case Report(ctx, status) =>
      if ctx !in w.contexts then (w, Failed)
      else (w.(contexts := w.contexts[ctx := w.contexts[ctx].(status := Some(status))]), Done)
    case DeleteCluster(id, ids) =>
      if id !in w.clusters || Current(w.clusters[id]).None? || Current(w.clusters[id]) == Some(Applied) then (w, Failed)
      else
        var c := w.clusters[id];
        if Current(c) == Some(Terminated) && StillTerminating(w, c) then (w, Failed)
        else
          var (contexts, ok) :=
            if Current(c) == Some(Terminated) then DeleteContexts(w.contexts, ids) else (w.contexts, true);
          if !ok || HasChildren(c) then (w.(contexts := contexts), Failed)
          else (World(w.clusters - {id}, contexts), Done)
  }

  // ---------------------------------------------------------------- what each operation does, outright

  /** The last action recorded for the cluster is one of these. */
  predicate LastIn(c: Cluster, states: set<StateValue>) {
    c.actions != [] && c.actions[|c.actions| - 1].state in states
  }

  /** There are no other states. */
  lemma StatesComplete(w: World, id: ClusterId)
    ensures id in w.clusters && w.clusters[id].actions != [] ==>
      LastIn(w.clusters[id], {Created, Approved, Applied, Instantiated, Terminated})
  {
    if id in w.clusters && w.clusters[id].actions != [] {
      var state := w.clusters[id].actions[|w.clusters[id].actions| - 1].state;
      assert state.Created? || state.Approved? || state.Applied? || state.Instantiated? || state.Terminated?;
    }
  }

  lemma CreateClusterExactly(w: World, id: ClusterId, providerKnown: bool)
    ensures
      var (w', outcome) := Step(w, CreateCluster(id, providerKnown));
      && outcome == (if providerKnown && id !in w.clusters then Done else Failed)
      && w'.contexts == w.contexts
      && w'.clusters == (if outcome != Done then w.clusters
                         else w.clusters[id := Cluster([ActionEntry(Created, "")], map[], map[], {})])
  {
  }

  /** A network can be put while the cluster is created or terminated, if it is new or to be replaced. */
  lemma PutNetworkExactly(w: World, id: ClusterId, name: string, spec: string, upsert: bool)
    ensures
      var (w', outcome) := Step(w, PutNetwork(id, name, spec, upsert));
      && outcome != Silent && w'.contexts == w.contexts
      && (outcome == Done <==>
          id in w.clusters && LastIn(w.clusters[id], {Created, Terminated})
          && (name !in w.clusters[id].networks || upsert))
      && (outcome != Done ==> w'.clusters == w.clusters)
      && (outcome == Done ==>
          var c := w.clusters[id];
          w'.clusters == w.clusters[id := Cluster(c.actions, c.networks[name := spec], c.providerNets, c.others)])
  {
  }

  lemma DropNetworkExactly(w: World, id: ClusterId, name: string)
    ensures
      var (w', outcome) := Step(w, DropNetwork(id, name));
      && outcome != Silent && w'.contexts == w.contexts
      && (outcome == Done <==> id in w.clusters && LastIn(w.clusters[id], {Created, Terminated}))
      && (outcome != Done ==> w'.clusters == w.clusters)
      && (outcome == Done ==>
          var c := w.clusters[id];
          w'.clusters == w.clusters[id := Cluster(c.actions, c.networks - {name}, c.providerNets, c.others)])
  {
  }

  /** The same for provider networks, where a state that forbids the change is answered with success. */
  lemma PutProviderNetExactly(w: World, id: ClusterId, name: string, spec: string, upsert: bool)
    ensures
      var (w', outcome) := Step(w, PutProviderNet(id, name, spec, upsert));
      && w'.contexts == w.contexts
      && (outcome == Silent <==> id in w.clusters && LastIn(w.clusters[id], {Approved, Applied, Instantiated}))
      && (outcome == Done <==>
          id in w.clusters && LastIn(w.clusters[id], {Created, Terminated})
          && (name !in w.clusters[id].providerNets || upsert))
      && (outcome != Done ==> w'.clusters == w.clusters)
      && (outcome == Done ==>
          var c := w.clusters[id];
          w'.clusters == w.clusters[id := Cluster(c.actions, c.networks, c.providerNets[name := spec], c.others)])
  {
    StatesComplete(w, id);
  }

  lemma DropProviderNetExactly(w: World, id: ClusterId, name: string)
    ensures
      var (w', outcome) := Step(w, DropProviderNet(id, name));
      && w'.contexts == w.contexts
      && (outcome == Silent <==> id in w.clusters && LastIn(w.clusters[id], {Approved, Applied, Instantiated}))
      && (outcome == Done <==> id in w.clusters && LastIn(w.clusters[id], {Created, Terminated}))
      && (outcome != Done ==> w'.clusters == w.clusters)
      && (outcome == Done ==>
          var c := w.clusters[id];
          w'.clusters == w.clusters[id := Cluster(c.actions, c.networks, c.providerNets - {name}, c.others)])
  {
    StatesComplete(w, id);
  }

  /** The resources of a cluster are its networks and provider networks, each with its own document. */
  lemma ResourcesExactly(c: Cluster)
    ensures forall n :: ResourceName(n, Network) in ResourcesOf(c) <==> n in c.networks
    ensures forall n :: ResourceName(n, ProviderNetwork) in ResourcesOf(c) <==> n in c.providerNets
    ensures forall n | n in c.networks :: ResourcesOf(c)[ResourceName(n, Network)] == c.networks[n]
    ensures forall n | n in c.providerNets :: ResourcesOf(c)[ResourceName(n, ProviderNetwork)] == c.providerNets[n]
  {
  }

  /** Applying does nothing to an applied cluster; to a created or terminated one it adds a context and an action. */
  lemma ApplyExactly(w: World, id: ClusterId, ctx: string, order: seq<ResourceName>, failure: Failure)
    requires ctx !in w.contexts
    ensures
      var (w', outcome) := Step(w, Apply(id, ctx, order, failure));
      && (outcome == Silent <==> id in w.clusters && LastIn(w.clusters[id], {Approved, Instantiated}))
      && (outcome == Done <==>
          id in w.clusters && (LastIn(w.clusters[id], {Applied})
            || (LastIn(w.clusters[id], {Created, Terminated}) && failure == Nothing)))
      && (outcome == Done && !LastIn(w.clusters[id], {Applied}) ==>
          var c := w.clusters[id];
          && w'.clusters == w.clusters[id :=
               Cluster(c.actions + [ActionEntry(Applied, ctx)], c.networks, c.providerNets, c.others)]
          && w'.contexts == w.contexts[ctx := Context(ResourcesOf(c), order, None)])
      && (outcome != Done || LastIn(w.clusters[id], {Applied}) ==>
          w'.clusters == w.clusters && w'.contexts == w.contexts)
  {
    StatesComplete(w, id);
    assert w.contexts - {ctx} == w.contexts;
  }

  /** Terminating changes an applied cluster only, and only if rsync accepts; the new action names the same context. */
  lemma TerminateExactly(w: World, id: ClusterId, accepted: bool)
    ensures
      var (w', outcome) := Step(w, Terminate(id, accepted));
      && w'.contexts == w.contexts
      && (outcome == Silent <==> id in w.clusters && LastIn(w.clusters[id], {Created, Approved, Instantiated}))
      && (outcome == Done <==>
          id in w.clusters && (LastIn(w.clusters[id], {Terminated}) || (LastIn(w.clusters[id], {Applied}) && accepted)))
      && (outcome == Done && LastIn(w.clusters[id], {Applied}) ==>
          var c := w.clusters[id];
          var ended := ActionEntry(Terminated, c.actions[|c.actions| - 1].contextId);
          w'.clusters == w.clusters[id := Cluster(c.actions + [ended], c.networks, c.providerNets, c.others)])
      && (outcome != Done || !LastIn(w.clusters[id], {Applied}) ==> w'.clusters == w.clusters)
  {
    StatesComplete(w, id);
  }

  /** A report changes the status of its context and nothing else. */
  lemma ReportExactly(w: World, ctx: string, status: ContextStatus)
    ensures
      var (w', outcome) := Step(w, Report(ctx, status));
      && outcome == (if ctx in w.contexts then Done else Failed) && w'.clusters == w.clusters
      && w'.contexts == (if ctx !in w.contexts then w.contexts
                         else var c := w.contexts[ctx];
                              w.contexts[ctx := Context(c.resources, c.order, Some(status))])
  {
  }

  /** rsync has reported a status other than the two final ones on the last context. */
  predicate Unfinished(w: World, c: Cluster) {
    c.actions != [] &&
    var ctx := c.actions[|c.actions| - 1].contextId;
    ctx in w.contexts && w.contexts[ctx].status.Some? &&
    w.contexts[ctx].status.value !in {TerminateDone, TerminateFailed}
  }

  /** What a deletion needs, and what it takes: the contexts in the log of a terminated cluster, then the cluster. */
  lemma DeleteClusterExactly(w: World, id: ClusterId, ids: seq<string>)
    requires forall i, j | 0 <= i < j < |ids| :: ids[i] != ids[j]
    ensures
      var (w', outcome) := Step(w, DeleteCluster(id, ids));
      && outcome != Silent
      && (outcome == Done <==>
          && id in w.clusters && w.clusters[id].actions != [] && !LastIn(w.clusters[id], {Applied})
          && (LastIn(w.clusters[id], {Terminated}) ==>
              !Unfinished(w, w.clusters[id]) && forall ctx | ctx in ids :: ctx in w.contexts)
          && w.clusters[id].networks == map[] && w.clusters[id].providerNets == map[] && w.clusters[id].others == {})
      && w'.clusters == (if outcome == Done then w.clusters - {id} else w.clusters)
      && (outcome == Done && LastIn(w.clusters[id], {Terminated}) ==>
          w'.contexts == w.contexts - (set ctx | ctx in ids))
      && (id !in w.clusters || !LastIn(w.clusters[id], {Terminated}) ==> w'.contexts == w.contexts)
  {
    DeleteContextsMeaning(w.contexts, ids);
  }

  /** What applying does where the state allows it. */
  lemma ApplyStep(w: World, id: ClusterId, ctx: string, order: seq<ResourceName>, failure: Failure)
    requires id in w.clusters && Editable(w.clusters[id])
    ensures
      var c := w.clusters[id];
      Step(w, Apply(id, ctx, order, failure)) ==
        if failure != Nothing then (World(w.clusters, w.contexts - {ctx}), Failed)
        else (World(w.clusters[id := c.(actions := c.actions + [ActionEntry(Applied, ctx)])],
                    w.contexts[ctx := Context(ResourcesOf(c), order, None)]), Done)
  {
  }

  ghost predicate Owns(w: World, id: ClusterId, ctx: string) {
    id in w.clusters && ctx in ContextIds(w.clusters[id].actions)
  }

  /** New context ids are new, and a deletion goes through the ids of its cluster, each once, in some order. */
  ghost predicate Legal(w: World, op: Op) {
    && (op.Apply? ==> op.ctx != "" && op.ctx !in w.contexts && forall id :: !Owns(w, id, op.ctx))
    && (op.DeleteCluster? ==>
      && (forall i, j | 0 <= i < j < |op.ids| :: op.ids[i] != op.ids[j])
      && (forall ctx :: ctx in op.ids <==> Owns(w, op.id, ctx)))
  }

  ghost predicate IsRun(worlds: seq<World>, ops: seq<Op>) {
    && |worlds| == |ops| + 1
    && worlds[0] == World(map[], map[])
    && forall i | 0 <= i < |ops| :: Legal(worlds[i], ops[i]) && worlds[i + 1] == Step(worlds[i], ops[i]).0
  }

  // ---------------------------------------------------------------- invariants

  /** Created, then pairs of Applied and Terminated with one context id each, the last pair possibly open. */
  ghost predicate LogShape(actions: seq<ActionEntry>) {
    && |actions| >= 1 && actions[0] == ActionEntry(Created, "")
    && (forall i | 1 <= i < |actions| ::
        actions[i].contextId != "" && actions[i].state == if i % 2 == 1 then Applied else Terminated)
    && (forall i | 1 <= i < |actions| && i % 2 == 0 :: actions[i].contextId == actions[i - 1].contextId)
    && (forall i, j | 1 <= i < j < |actions| && actions[i].contextId == actions[j].contextId ::
        j == i + 1 && j % 2 == 0)
  }

  /** While a cluster is applied, its intents are exactly those from which its last context was made. */
  ghost predicate Frozen(w: World, c: Cluster) {
    Current(c) == Some(Applied) ==>
      LastContext(c) in w.contexts && w.contexts[LastContext(c)].resources == ResourcesOf(c)
  }

  ghost predicate Healthy(w: World, id: ClusterId) {
    id in w.clusters ==> LogShape(w.clusters[id].actions) && Frozen(w, w.clusters[id])
  }

  ghost predicate Inv(w: World) {
    && (forall id {:trigger Healthy(w, id)} :: Healthy(w, id))
    && (forall id, other, ctx | Owns(w, id, ctx) && Owns(w, other, ctx) :: id == other)
    && (forall ctx | ctx in w.contexts :: exists id :: Owns(w, id, ctx))
  }

  /** Every context in a log is live: with Inv, the live contexts are exactly those in the logs. */
  ghost predicate Conserved(w: World) {
    forall id, ctx | Owns(w, id, ctx) :: ctx in w.contexts
  }

  lemma ContextIdsAppend(actions: seq<ActionEntry>, a: ActionEntry)
    ensures ContextIds(actions + [a]) == ContextIds(actions) + if a.contextId == "" then {} else {a.contextId}
  {
    var more := actions + [a];
    assert more[|actions|] == a;
    assert forall i | 0 <= i < |actions| :: more[i] == actions[i];
    forall ctx | ctx in ContextIds(actions) ensures ctx in ContextIds(more) {
      var i :| 0 <= i < |actions| && actions[i].contextId == ctx;
      assert more[i].contextId == ctx;
    }
  }

  lemma {:induction false} DeleteContextsMeaning(contexts: map<string, Context>, order: seq<string>)
    requires forall i, j | 0 <= i < j < |order| :: order[i] != order[j]
    ensures DeleteContexts(contexts, order).1 <==> forall ctx | ctx in order :: ctx in contexts
    ensures DeleteContexts(contexts, order).1 ==>
      DeleteContexts(contexts, order).0 == contexts - (set ctx | ctx in order)
    ensures forall ctx :: ctx in DeleteContexts(contexts, order).0 ==>
      ctx in contexts && DeleteContexts(contexts, order).0[ctx] == contexts[ctx]
    ensures forall ctx :: ctx in contexts && ctx !in order ==> ctx in DeleteContexts(contexts, order).0
    decreases |order|
  {
    if order != [] && order[0] in contexts {
      DeleteContextsMeaning(contexts - {order[0]}, order[1..]);
      assert order == [order[0]] + order[1..];
    }
  }

  lemma LogShapeGrows(actions: seq<ActionEntry>, a: ActionEntry)
    requires LogShape(actions) && a.contextId != ""
    requires
      || (a.state == Applied && actions[|actions| - 1].state != Applied && a.contextId !in ContextIds(actions))
      || (a.state == Terminated && actions[|actions| - 1] == ActionEntry(Applied, a.contextId))
    ensures LogShape(actions + [a])
  {
    var n, more := |actions|, actions + [a];
    assert n % 2 == 0 <==> actions[n - 1].state == Applied;
    assert forall i | 0 <= i < n :: more[i] == actions[i];
    forall i | 1 <= i < n && actions[i].contextId == a.contextId ensures i == n - 1 && n % 2 == 0 {
      assert actions[i].contextId in ContextIds(actions);
      assert actions[n - 1].contextId == a.contextId;
    }
  }

  /** Every context id of a well-shaped log is that of some applied entry; the last one is among them. */
  lemma LastContextOwned(c: Cluster)
    requires LogShape(c.actions)
    ensures Current(c) == Some(Created) <==> ContextIds(c.actions) == {}
    ensures Current(c) != Some(Created) ==> LastContext(c) in ContextIds(c.actions)
  {
    if |c.actions| > 1 {
      assert c.actions[|c.actions| - 1].contextId in ContextIds(c.actions);
    }
  }

  /** Writing one cluster, with the contexts its log gains. */
  lemma PutKeeps(w: World, id: ClusterId, c: Cluster, contexts: map<string, Context>, gained: set<string>)
    requires Inv(w) && LogShape(c.actions)
    requires ContextIds(c.actions) == (if id in w.clusters then ContextIds(w.clusters[id].actions) else {}) + gained
    requires forall other, g | g in gained :: !Owns(w, other, g)
    requires contexts.Keys == w.contexts.Keys + gained
    requires forall ctx | ctx in w.contexts && ctx !in gained :: contexts[ctx].resources == w.contexts[ctx].resources
    requires Frozen(World(w.clusters[id := c], contexts), c)
    ensures Inv(World(w.clusters[id := c], contexts))
    ensures Conserved(World(w.clusters[id := c], contexts)) <==> Conserved(w)
  {
    var w' := World(w.clusters[id := c], contexts);
    assert forall other, ctx :: Owns(w', other, ctx) <==> Owns(w, other, ctx) || (other == id && ctx in gained);
    forall other ensures Healthy(w', other) {
      assert Healthy(w, other);
      if other in w.clusters && other != id && Current(w.clusters[other]) == Some(Applied) {
        LastContextOwned(w.clusters[other]);
        assert Owns(w, other, LastContext(w.clusters[other]));
      }
    }
    forall ctx | ctx in contexts ensures exists other :: Owns(w', other, ctx) {
      if ctx in gained {
        assert Owns(w', id, ctx);
      } else {
        var other :| Owns(w, other, ctx);
        assert Owns(w', other, ctx);
      }
    }
  }

  /** Removing contexts a cluster that is not applied owns, and perhaps the cluster. */
  lemma RemoveKeeps(w: World, id: ClusterId, clusters: map<ClusterId, Cluster>, contexts: map<string, Context>)
    requires Inv(w) && id in w.clusters && Current(w.clusters[id]) != Some(Applied)
    requires clusters == w.clusters || (clusters == w.clusters - {id} && forall ctx | Owns(w, id, ctx) ::
      ctx !in contexts)
    requires forall ctx | ctx in contexts :: ctx in w.contexts && contexts[ctx] == w.contexts[ctx]
    requires forall ctx | ctx in w.contexts && !Owns(w, id, ctx) :: ctx in contexts
    ensures Inv(World(clusters, contexts))
  {
    var w' := World(clusters, contexts);
    assert forall other, ctx :: Owns(w', other, ctx) <==> Owns(w, other, ctx) && other in clusters;
    forall other ensures Healthy(w', other) {
      assert Healthy(w, other);
      if other in clusters && Current(w.clusters[other]) == Some(Applied) {
        LastContextOwned(w.clusters[other]);
        assert Owns(w, other, LastContext(w.clusters[other]));
      }
    }
    forall ctx | ctx in contexts ensures exists other :: Owns(w', other, ctx) {
      var other :| Owns(w, other, ctx);
      assert Owns(w', other, ctx);
    }
  }

  lemma EditKeeps(w: World, op: Op)
    requires Inv(w) && !op.Apply? && !op.Terminate? && !op.DeleteCluster? && !op.Report?
    ensures Inv(Step(w, op).0) && (Conserved(Step(w, op).0) <==> Conserved(w))
  {
    var w' := Step(w, op).0;
    if w' != w {
      assert Healthy(w, op.id);
      PutKeeps(w, op.id, w'.clusters[op.id], w.contexts, {});
    }
  }

  lemma ApplyKeeps(w: World, op: Op)
    requires Inv(w) && Legal(w, op) && op.Apply?
    ensures Inv(Step(w, op).0) && (Conserved(Step(w, op).0) <==> Conserved(w))
  {
    var w' := Step(w, op).0;
    if op.failure != Nothing {
      assert w'.contexts == w.contexts;
    } else if w' != w {
      var c := w.clusters[op.id];
      assert Healthy(w, op.id);
      ContextIdsAppend(c.actions, ActionEntry(Applied, op.ctx));
      assert LogShape(c.actions + [ActionEntry(Applied, op.ctx)]) by {
        assert !Owns(w, op.id, op.ctx);
        LogShapeGrows(c.actions, ActionEntry(Applied, op.ctx));
      }
      assert forall other, g | g in {op.ctx} :: !Owns(w, other, g);
      assert Frozen(w', w'.clusters[op.id]);
      PutKeeps(w, op.id, w'.clusters[op.id], w'.contexts, {op.ctx});
    }
  }

  lemma TerminateKeeps(w: World, op: Op)
    requires Inv(w) && op.Terminate?
    ensures Inv(Step(w, op).0) && (Conserved(Step(w, op).0) <==> Conserved(w))
  {
    var w' := Step(w, op).0;
    if w' != w {
      var c := w.clusters[op.id];
      var a := ActionEntry(Terminated, LastContext(c));
      assert Healthy(w, op.id);
      LastContextOwned(c);
      ContextIdsAppend(c.actions, a);
      LogShapeGrows(c.actions, a);
      assert w'.clusters[op.id].actions == c.actions + [a];
      PutKeeps(w, op.id, w'.clusters[op.id], w.contexts, {});
    }
  }

  lemma ReportKeeps(w: World, op: Op)
    requires Inv(w) && op.Report?
    ensures Inv(Step(w, op).0) && (Conserved(Step(w, op).0) <==> Conserved(w))
  {
    var w' := Step(w, op).0;
    assert forall id, ctx :: Owns(w', id, ctx) <==> Owns(w, id, ctx);
    forall id ensures Healthy(w', id) {
      assert Healthy(w, id);
    }
  }

  /** The deletion that goes wrong: it removes the contexts and is then refused for the sake of the children. */
  ghost predicate RefusedAfterCleanup(w: World, op: Op) {
    && op.DeleteCluster? && op.id in w.clusters
    && Current(w.clusters[op.id]) == Some(Terminated)
    && !StillTerminating(w, w.clusters[op.id])
    && HasChildren(w.clusters[op.id])
  }

  /** What the deletion of a terminated cluster does, whether or not it finds all contexts. */
  lemma DeleteEffect(w: World, op: Op)
    requires Legal(w, op) && op.DeleteCluster? && op.id in w.clusters
    requires Current(w.clusters[op.id]) == Some(Terminated) && !StillTerminating(w, w.clusters[op.id])
    ensures
      var (w', outcome) := Step(w, op);
      && (forall ctx | ctx in w'.contexts :: ctx in w.contexts && w'.contexts[ctx] == w.contexts[ctx])
      && (forall ctx | ctx in w.contexts && !Owns(w, op.id, ctx) :: ctx in w'.contexts)
      && (outcome == Done ==> w'.clusters == w.clusters - {op.id} && forall ctx | Owns(w, op.id, ctx) ::
          ctx !in w'.contexts)
      && (outcome != Done ==> w'.clusters == w.clusters)
    ensures Conserved(w) ==>
      && Step(w, op).0.contexts == w.contexts - (set ctx | ctx in op.ids)
      && (Step(w, op).1 == Done <==> !HasChildren(w.clusters[op.id]))
  {
    DeleteContextsMeaning(w.contexts, op.ids);
  }

  lemma DeleteTerminatedKeeps(w: World, op: Op)
    requires Inv(w) && Legal(w, op) && op.DeleteCluster? && op.id in w.clusters
    requires Current(w.clusters[op.id]) == Some(Terminated) && !StillTerminating(w, w.clusters[op.id])
    ensures Inv(Step(w, op).0)
    ensures Conserved(w) ==> (Conserved(Step(w, op).0) <==> !HasChildren(w.clusters[op.id]))
  {
    var w' := Step(w, op).0;
    DeleteEffect(w, op);
    assert Healthy(w, op.id);
    assert w' == World(w'.clusters, w'.contexts);
    RemoveKeeps(w, op.id, w'.clusters, w'.contexts);
    if Conserved(w) {
      assert Owns(w, op.id, LastContext(w.clusters[op.id])) by { LastContextOwned(w.clusters[op.id]); }
      DeleteConserves(w, op);
    }
  }

  lemma DeleteKeeps(w: World, op: Op)
    requires Inv(w) && Legal(w, op) && op.DeleteCluster?
    ensures Inv(Step(w, op).0)
    ensures Step(w, op).1 == Done ==>
      op.id !in Step(w, op).0.clusters && forall ctx | Owns(w, op.id, ctx) :: ctx !in Step(w, op).0.contexts
    ensures Conserved(w) ==> (Conserved(Step(w, op).0) <==> !RefusedAfterCleanup(w, op))
  {
    var w' := Step(w, op).0;
    assert Healthy(w, op.id);
    if op.id in w.clusters {
      var c := w.clusters[op.id];
      if Current(c) == Some(Terminated) && !StillTerminating(w, c) {
        DeleteEffect(w, op);
        DeleteTerminatedKeeps(w, op);
      } else if w' != w {
        assert forall ctx :: !Owns(w, op.id, ctx) by { LastContextOwned(c); }
        RemoveKeeps(w, op.id, w'.clusters, w'.contexts);
        assert forall id, ctx :: Owns(w', id, ctx) <==> Owns(w, id, ctx);
      }
    }
  }

  lemma DeleteConserves(w: World, op: Op)
    requires Inv(w) && Legal(w, op) && op.DeleteCluster? && op.id in w.clusters && Conserved(w)
    requires Step(w, op).0.contexts == w.contexts - (set ctx | ctx in op.ids)
    requires Owns(w, op.id, LastContext(w.clusters[op.id]))
    requires Step(w, op).0.clusters == if HasChildren(w.clusters[op.id]) then w.clusters else w.clusters - {op.id}
    ensures Conserved(Step(w, op).0) <==> !HasChildren(w.clusters[op.id])
  {
    var w' := Step(w, op).0;
    if HasChildren(w.clusters[op.id]) {
      assert Owns(w', op.id, LastContext(w.clusters[op.id]));
    } else {
      forall id, ctx | Owns(w', id, ctx) ensures ctx in w'.contexts {
        assert Owns(w, id, ctx) && !Owns(w, op.id, ctx);
      }
    }
  }

  /** Every operation keeps the log shape, the freeze and the ownership of contexts. */
  lemma StepKeepsInv(w: World, op: Op)
    requires Inv(w) && Legal(w, op)
    ensures Inv(Step(w, op).0)
    ensures Conserved(w) ==> (Conserved(Step(w, op).0) <==> !RefusedAfterCleanup(w, op))
  {
    match op
    case Apply(_, _, _, _) => ApplyKeeps(w, op);
    case Terminate(_, _) => TerminateKeeps(w, op);
    case Report(_, _) => ReportKeeps(w, op);
    case DeleteCluster(_, _) => DeleteKeeps(w, op);
    case _ => EditKeeps(w, op);
  }

  // ---------------------------------------------------------------- runs

  lemma {:induction false} RunInvariant(worlds: seq<World>, ops: seq<Op>, n: nat)
    requires IsRun(worlds, ops) && n <= |ops|
    ensures Inv(worlds[n])
    ensures (forall i | 0 <= i < n :: !RefusedAfterCleanup(worlds[i], ops[i])) ==> Conserved(worlds[n])
  {
    if n > 0 {
      RunInvariant(worlds, ops, n - 1);
      StepKeepsInv(worlds[n - 1], ops[n - 1]);
    }
  }

  /** In every reachable state, what an applied cluster shows is what its last context was made from. */
  lemma IntentsFrozenWhileApplied(worlds: seq<World>, ops: seq<Op>, n: nat, id: ClusterId)
    requires IsRun(worlds, ops) && n <= |ops|
    requires id in worlds[n].clusters && Current(worlds[n].clusters[id]) == Some(Applied)
    ensures
      var w, c := worlds[n], worlds[n].clusters[id];
      LastContext(c) in w.contexts && w.contexts[LastContext(c)].resources == ResourcesOf(c)
  {
    RunInvariant(worlds, ops, n);
    assert Healthy(worlds[n], id);
  }

  /**
   * Without a refused deletion the live contexts are exactly the ids in the logs, and a deleted cluster leaves none.
   */
  lemma ContextsConserved(worlds: seq<World>, ops: seq<Op>, n: nat)
    requires IsRun(worlds, ops) && n <= |ops|
    requires forall i | 0 <= i < n :: !RefusedAfterCleanup(worlds[i], ops[i])
    ensures forall ctx :: ctx in worlds[n].contexts <==> exists id :: Owns(worlds[n], id, ctx)
    ensures forall id | id in worlds[n].clusters :: LogShape(worlds[n].clusters[id].actions)
  {
    RunInvariant(worlds, ops, n);
    forall id | id in worlds[n].clusters ensures LogShape(worlds[n].clusters[id].actions) {
      assert Healthy(worlds[n], id);
    }
  }

  /** A cluster with a context that is gone while its log still names it. */
  ghost predicate Stranded(w: World, id: ClusterId, ctx: string) {
    Owns(w, id, ctx) && ctx !in w.contexts && Current(w.clusters[id]) != Some(Created)
  }

  /** A refused deletion strands the cluster: no later operation can delete it, whatever is done about the children. */
  lemma RefusedDeletionStrands(w: World, op: Op)
    requires Inv(w) && Legal(w, op) && Conserved(w) && RefusedAfterCleanup(w, op)
    ensures Step(w, op).1 == Failed && Stranded(Step(w, op).0, op.id, LastContext(w.clusters[op.id]))
  {
    assert Healthy(w, op.id);
    LastContextOwned(w.clusters[op.id]);
    assert Owns(w, op.id, LastContext(w.clusters[op.id]));
    DeleteContextsMeaning(w.contexts, op.ids);
  }

  // The run that shows it: create a cluster, add a network, apply, terminate, delete.

  const CREATED := [ActionEntry(Created, "")]
  const APPLIED := CREATED + [ActionEntry(Applied, "x")]
  const TERMINATED := APPLIED + [ActionEntry(Terminated, "x")]

  ghost function WitnessOps(id: ClusterId, spec: string): seq<Op> {
    [CreateCluster(id, true), PutNetwork(id, "n", spec, false), Apply(id, "x", [ResourceName("n", Network)], Nothing),
     Terminate(id, true), DeleteCluster(id, ["x"])]
  }

  ghost function WitnessWorlds(id: ClusterId, spec: string): seq<World> {
    var c := Cluster(CREATED, map["n" := spec], map[], {});
    var contexts := map["x" := Context(ResourcesOf(c), [ResourceName("n", Network)], None)];
    [World(map[], map[]), World(map[id := Cluster(CREATED, map[], map[], {})], map[]), World(map[id := c], map[]),
     World(map[id := c.(actions := APPLIED)], contexts), World(map[id := c.(actions := TERMINATED)], contexts),
     World(map[id := c.(actions := TERMINATED)], map[])]
  }

  lemma WitnessIds()
    ensures ContextIds(CREATED) == {} && ContextIds(APPLIED) == {"x"} == ContextIds(TERMINATED)
  {
    ContextIdsAppend(CREATED, ActionEntry(Applied, "x"));
    ContextIdsAppend(APPLIED, ActionEntry(Terminated, "x"));
  }

  lemma WitnessGrows(id: ClusterId, spec: string, i: nat)
    requires i < 3
    ensures Legal(WitnessWorlds(id, spec)[i], WitnessOps(id, spec)[i])
    ensures WitnessWorlds(id, spec)[i + 1] == Step(WitnessWorlds(id, spec)[i], WitnessOps(id, spec)[i]).0
  {
    WitnessIds();
    if i == 2 {
      assert forall other, ctx :: !Owns(WitnessWorlds(id, spec)[2], other, ctx);
    }
  }

  lemma WitnessTerminates(id: ClusterId, spec: string)
    ensures Legal(WitnessWorlds(id, spec)[3], WitnessOps(id, spec)[3])
    ensures WitnessWorlds(id, spec)[4] == Step(WitnessWorlds(id, spec)[3], WitnessOps(id, spec)[3]).0
  {
    assert APPLIED[|APPLIED| - 1] == ActionEntry(Applied, "x");
  }

  lemma WitnessDeletes(id: ClusterId, spec: string)
    ensures Legal(WitnessWorlds(id, spec)[4], WitnessOps(id, spec)[4])
    ensures WitnessWorlds(id, spec)[5] == Step(WitnessWorlds(id, spec)[4], WitnessOps(id, spec)[4]).0
    ensures RefusedAfterCleanup(WitnessWorlds(id, spec)[4], WitnessOps(id, spec)[4])
    ensures Stranded(WitnessWorlds(id, spec)[5], id, "x")
  {
    WitnessIds();
    var w := WitnessWorlds(id, spec)[4];
    var c := w.clusters[id];
    assert Current(c) == Some(Terminated) && LastContext(c) == "x" && w.contexts["x"].status == None;
    assert HasChildren(c) by { assert "n" in c.networks; }
    assert Legal(w, WitnessOps(id, spec)[4]) by {
      assert forall other, ctx :: Owns(w, other, ctx) <==> other == id && ctx == "x";
    }
    assert DeleteContexts(w.contexts, ["x"]).0 == map[] by {
      assert ["x"][1..] == [];
      assert w.contexts - {"x"} == map[];
    }
  }

  /** A refused deletion strands a cluster in a run from the empty store. */
  lemma RefusedDeletionIsReached(id: ClusterId, spec: string)
    ensures IsRun(WitnessWorlds(id, spec), WitnessOps(id, spec))
    ensures RefusedAfterCleanup(WitnessWorlds(id, spec)[4], WitnessOps(id, spec)[4])
    ensures Stranded(WitnessWorlds(id, spec)[5], id, "x")
  {
    forall i: nat | i < 5
      ensures Legal(WitnessWorlds(id, spec)[i], WitnessOps(id, spec)[i])
      ensures WitnessWorlds(id, spec)[i + 1] == Step(WitnessWorlds(id, spec)[i], WitnessOps(id, spec)[i]).0
    {
      if i < 3 {
        WitnessGrows(id, spec, i);
      } else if i == 3 {
        WitnessTerminates(id, spec);
      } else {
        WitnessDeletes(id, spec);
      }
    }
    WitnessDeletes(id, spec);
  }

  lemma DeleteKeepsStranded(w: World, op: Op, id: ClusterId, ctx: string)
    requires Legal(w, op) && Stranded(w, id, ctx) && op.DeleteCluster? && LogShape(w.clusters[id].actions)
    ensures Stranded(Step(w, op).0, id, ctx)
  {
    assert ctx in op.ids || id != op.id;
    DeleteContextsMeaning(w.contexts, op.ids);
  }

  /** An operation that only adds to logs, and makes no context of that name, leaves a cluster stranded. */
  lemma GrowthKeepsStranded(w: World, w': World, id: ClusterId, ctx: string, a: ActionEntry)
    requires Stranded(w, id, ctx) && a.state != Created
    requires id in w'.clusters && ctx !in w'.contexts
    requires w'.clusters[id].actions in {w.clusters[id].actions, w.clusters[id].actions + [a]}
    ensures Stranded(w', id, ctx)
  {
    ContextIdsAppend(w.clusters[id].actions, a);
  }

  lemma LogKeepsStranded(w: World, op: Op, id: ClusterId, ctx: string)
    requires Legal(w, op) && Stranded(w, id, ctx) && (op.Apply? || op.Terminate?)
    ensures Stranded(Step(w, op).0, id, ctx)
  {
    var a := ActionEntry(if op.Apply? then Applied else Terminated,
      if op.Apply? then op.ctx else LastContext(w.clusters[id]));
    assert !(op.Apply? && op.ctx == ctx);
    GrowthKeepsStranded(w, Step(w, op).0, id, ctx, a);
  }

  lemma StepKeepsStranded(w: World, op: Op, id: ClusterId, ctx: string)
    requires Inv(w) && Legal(w, op) && Stranded(w, id, ctx)
    ensures Stranded(Step(w, op).0, id, ctx)
  {
    if op.Apply? || op.Terminate? {
      LogKeepsStranded(w, op, id, ctx);
    } else if op.DeleteCluster? {
      assert Healthy(w, id);
      DeleteKeepsStranded(w, op, id, ctx);
    }
  }

  lemma {:induction false} StrandedForever(worlds: seq<World>, ops: seq<Op>, m: nat, n: nat, id: ClusterId, ctx: string)
    requires IsRun(worlds, ops) && m <= n <= |ops| && Stranded(worlds[m], id, ctx)
    ensures id in worlds[n].clusters && Stranded(worlds[n], id, ctx)
  {
    if m < n {
      StrandedForever(worlds, ops, m, n - 1, id, ctx);
      RunInvariant(worlds, ops, n - 1);
      StepKeepsStranded(worlds[n - 1], ops[n - 1], id, ctx);
    }
  }
}
