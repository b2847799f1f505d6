/**
 * The handlers behind NetworkIntents (cluster.go, network.go, providernet.go, scheduler.go, ovncontroller.go), call
 * by call
 * on the shared collection of documents and on the context store.
 */
module ClusterClient {
  import opened Wrappers
  import opened NetworkIntents
  import opened Collection

  /** What a tag holds: a document of the user's, or the state information of a cluster. */
  datatype Value = Text(text: string) | StateInfo(actions: seq<ActionEntry>)

  function Own(id: ClusterId): Key {
    ClusterKey(id.0, id.1)
  }

  function Child(id: ClusterId, kind: ChildKind, name: string): Key {
    ChildKey(id.0, id.1, kind, name)
  }

  // ---------------------------------------------------------------- what the documents stand for

  ghost predicate HasState(tags: map<Tag, Value>) {
    StateTag in tags && tags[StateTag].StateInfo?
  }

  ghost predicate HasIntent(tags: map<Tag, Value>) {
    NetworkMetadata in tags && tags[NetworkMetadata].Text?
  }

  /** The documents of one kind of intents, by name. */
  ghost predicate SpellsIntents(table: Table<Value>, id: ClusterId, kind: ChildKind, intents: map<string, string>) {
    && (forall n :: n in intents <==> Child(id, kind, n) in table)
    && (forall n | n in intents ::
        HasIntent(table[Child(id, kind, n)]) && table[Child(id, kind, n)][NetworkMetadata].text == intents[n])
  }

  ghost predicate SpellsOthers(table: Table<Value>, id: ClusterId, others: set<Other>) {
    forall n :: (Label(n) in others <==> Child(id, LabelChild, n) in table)
      && (KvPairs(n) in others <==> Child(id, KvPairsChild, n) in table)
  }

  /** The documents of one cluster spell it out. */
  ghost predicate Spells(table: Table<Value>, id: ClusterId, c: Cluster) {
    && Own(id) in table && HasState(table[Own(id)]) && table[Own(id)][StateTag].actions == c.actions
    && SpellsIntents(table, id, NetworkChild, c.networks)
    && SpellsIntents(table, id, ProviderNetChild, c.providerNets)
    && SpellsOthers(table, id, c.others)
  }

  ghost predicate ShowsCluster(table: Table<Value>, clusters: map<ClusterId, Cluster>, id: ClusterId) {
    if id in clusters then Spells(table, id, clusters[id]) else Own(id) !in table
  }

  /** The collection and the clusters it stands for. */
  ghost predicate Linked(table: Table<Value>, clusters: map<ClusterId, Cluster>) {
    forall id {:trigger ShowsCluster(table, clusters, id)} :: ShowsCluster(table, clusters, id)
  }

  /** The documents leave no choice. */
  lemma LinkedUnique(table: Table<Value>, a: map<ClusterId, Cluster>, b: map<ClusterId, Cluster>)
    requires Linked(table, a) && Linked(table, b)
    ensures a == b
  {
    forall id ensures id in a <==> id in b {
      assert ShowsCluster(table, a, id) && ShowsCluster(table, b, id);
    }
    forall id | id in a ensures a[id] == b[id] {
      assert ShowsCluster(table, a, id) && ShowsCluster(table, b, id);
      SpellsUnique(table, id, a[id], b[id]);
    }
  }

  lemma SpellsUnique(table: Table<Value>, id: ClusterId, c: Cluster, d: Cluster)
    requires Spells(table, id, c) && Spells(table, id, d)
    ensures c == d
  {
    assert c.networks == d.networks;
    assert c.providerNets == d.providerNets;
    forall o ensures o in c.others <==> o in d.others {
      match o
      case Label(n) =>
      case KvPairs(n) =>
    }
  }

  // ---------------------------------------------------------------- what a change of the documents does

  /** Documents below the key of a cluster are the only ones that show in it. */
  lemma ShowsElsewhere(table: Table<Value>, table': Table<Value>, clusters: map<ClusterId, Cluster>, id: ClusterId)
    requires ShowsCluster(table, clusters, id)
    requires forall k | Matches(Own(id), k) :: (k in table <==> k in table') && (k in table ==> table[k] == table'[k])
    ensures ShowsCluster(table', clusters, id)
  {
    assert forall kind, n :: Matches(Own(id), Child(id, kind, n));
    if id in clusters {
      var c := clusters[id];
      assert SpellsIntents(table', id, NetworkChild, c.networks);
      assert SpellsIntents(table', id, ProviderNetChild, c.providerNets);
      assert SpellsOthers(table', id, c.others);
    }
  }

  /** Changes below the key of one cluster leave the others as they were. */
  lemma LinkedElsewhere(table: Table<Value>, table': Table<Value>, clusters: map<ClusterId, Cluster>,
                        clusters': map<ClusterId, Cluster>,
                        id: ClusterId)
    requires Linked(table, clusters) && ShowsCluster(table', clusters', id)
    requires forall other | other != id ::
      (other in clusters <==> other in clusters') && (other in clusters ==> clusters[other] == clusters'[other])
    requires forall k | !Matches(Own(id), k) :: (k in table <==> k in table') && (k in table ==> table[k] == table'[k])
    ensures Linked(table', clusters')
  {
    forall other ensures ShowsCluster(table', clusters', other) {
      if other != id {
        assert ShowsCluster(table, clusters, other);
        assert forall k | Matches(Own(other), k) :: !Matches(Own(id), k);
        ShowsElsewhere(table, table', clusters, other);
      }
    }
  }

  /** The other children a child document adds. */
  function AsOther(kind: ChildKind, name: string): set<Other> {
    if kind == LabelChild then {Label(name)} else if kind == KvPairsChild then {KvPairs(name)} else {}
  }

  /** The cluster with one more child, or one that is replaced. */
  function WithChild(c: Cluster, kind: ChildKind, name: string, text: string): Cluster {
    match kind
    case NetworkChild => c.(networks := c.networks[name := text])
    case ProviderNetChild => c.(providerNets := c.providerNets[name := text])
    case _ => c.(others := c.others + AsOther(kind, name))
  }

  function WithoutChild(c: Cluster, kind: ChildKind, name: string): Cluster {
    match kind
    case NetworkChild => c.(networks := c.networks - {name})
    case ProviderNetChild => c.(providerNets := c.providerNets - {name})
    case _ => c.(others := c.others - AsOther(kind, name))
  }

  lemma SpellsPut(table: Table<Value>, id: ClusterId, c: Cluster, kind: ChildKind, name: string, tags: map<Tag,
                  Value>, text: string)
    requires Spells(table, id, c)
    requires kind == NetworkChild || kind == ProviderNetChild ==> HasIntent(tags) && tags[NetworkMetadata].text == text
    ensures Spells(table[Child(id, kind, name) := tags], id, WithChild(c, kind, name, text))
  {
    var table', c' := table[Child(id, kind, name) := tags], WithChild(c, kind, name, text);
    assert SpellsIntents(table', id, NetworkChild, c'.networks);
    assert SpellsIntents(table', id, ProviderNetChild, c'.providerNets);
    assert SpellsOthers(table', id, c'.others);
  }

  lemma SpellsDrop(table: Table<Value>, id: ClusterId, c: Cluster, kind: ChildKind, name: string)
    requires Spells(table, id, c)
    ensures Spells(table - {Child(id, kind, name)}, id, WithoutChild(c, kind, name))
  {
    var table', c' := table - {Child(id, kind, name)}, WithoutChild(c, kind, name);
    assert SpellsIntents(table', id, NetworkChild, c'.networks);
    assert SpellsIntents(table', id, ProviderNetChild, c'.providerNets);
    assert SpellsOthers(table', id, c'.others);
  }

  lemma ChildPut(table: Table<Value>, clusters: map<ClusterId, Cluster>, id: ClusterId, kind: ChildKind, name: string,
                 tags: map<Tag, Value>, text: string)
    requires Linked(table, clusters) && id in clusters
    requires kind == NetworkChild || kind == ProviderNetChild ==> HasIntent(tags) && tags[NetworkMetadata].text == text
    ensures Linked(table[Child(id, kind, name) := tags], clusters[id := WithChild(clusters[id], kind, name, text)])
  {
    assert ShowsCluster(table, clusters, id);
    SpellsPut(table, id, clusters[id], kind, name, tags, text);
    LinkedElsewhere(table, table[Child(id, kind, name) := tags], clusters,
                    clusters[id := WithChild(clusters[id], kind, name, text)], id);
  }

  lemma ChildDropped(table: Table<Value>, clusters: map<ClusterId, Cluster>, id: ClusterId, kind: ChildKind,
                     name: string)
    requires Linked(table, clusters) && id in clusters
    ensures Linked(table - {Child(id, kind, name)}, clusters[id := WithoutChild(clusters[id], kind, name)])
  {
    assert ShowsCluster(table, clusters, id);
    SpellsDrop(table, id, clusters[id], kind, name);
    LinkedElsewhere(table, table - {Child(id, kind, name)}, clusters,
                    clusters[id := WithoutChild(clusters[id], kind, name)], id);
  }

  lemma ChildForgotten(table: Table<Value>, clusters: map<ClusterId, Cluster>, id: ClusterId, kind: ChildKind,
                       name: string)
    requires Linked(table, clusters) && Closed(table)
    ensures Linked(table - {Child(id, kind, name)},
                   if id in clusters then clusters[id := WithoutChild(clusters[id], kind, name)] else clusters)
  {
    if id in clusters {
      ChildDropped(table, clusters, id, kind, name);
    } else {
      assert ShowsCluster(table, clusters, id);
      assert Matches(Own(id), Child(id, kind, name));
      assert table - {Child(id, kind, name)} == table;
    }
  }

  /**
   * The cluster whose own document is being written: a new one has no children, because whatever has a child is
   * there.
   */
  function OrNew(clusters: map<ClusterId, Cluster>, id: ClusterId): Cluster {
    if id in clusters then clusters[id] else Cluster([], map[], map[], {})
  }

  lemma OwnPut(table: Table<Value>, clusters: map<ClusterId, Cluster>, id: ClusterId, tags: map<Tag, Value>)
    requires Linked(table, clusters) && Closed(table) && HasState(tags)
    ensures Linked(table[Own(id) := tags], clusters[id := OrNew(clusters, id).(actions := tags[StateTag].actions)])
  {
    var table', c := table[Own(id) := tags], OrNew(clusters, id).(actions := tags[StateTag].actions);
    assert ShowsCluster(table, clusters, id);
    assert forall kind, n :: Matches(Own(id), Child(id, kind, n));
    assert SpellsIntents(table', id, NetworkChild, c.networks);
    assert SpellsIntents(table', id, ProviderNetChild, c.providerNets);
    assert SpellsOthers(table', id, c.others);
    LinkedElsewhere(table, table', clusters, clusters[id := c], id);
  }

  /** A cluster has child documents exactly when its own is not the only one below its key. */
  lemma ChildrenExactly(table: Table<Value>, id: ClusterId, c: Cluster)
    requires Spells(table, id, c)
    ensures HasChildren(c) <==> exists k :: k in table && Matches(Own(id), k) && k != Own(id)
  {
    if k: Key :| k in table && Matches(Own(id), k) && k != Own(id) {
      assert k == Child(id, k.kind, k.name);
      match k.kind
      case NetworkChild => assert k.name in c.networks;
      case ProviderNetChild => assert k.name in c.providerNets;
      case LabelChild => assert Label(k.name) in c.others;
      case KvPairsChild => assert KvPairs(k.name) in c.others;
    }
    if HasChildren(c) {
      var k := ShownChild(table, id, c);
    }
  }

  lemma ShownChild(table: Table<Value>, id: ClusterId, c: Cluster) returns (k: Key)
    requires Spells(table, id, c) && HasChildren(c)
    ensures k in table && Matches(Own(id), k) && k != Own(id)
  {
    if c.networks != map[] {
      var name :| name in c.networks;
      k := Child(id, NetworkChild, name);
    } else if c.providerNets != map[] {
      var name :| name in c.providerNets;
      k := Child(id, ProviderNetChild, name);
    } else {
      var other :| other in c.others;
      k := Child(id, if other.Label? then LabelChild else KvPairsChild, other.name);
    }
  }

  lemma OwnDropped(table: Table<Value>, clusters: map<ClusterId, Cluster>, id: ClusterId)
    requires Linked(table, clusters)
    ensures Linked(table - {Own(id)}, clusters - {id})
  {
    LinkedElsewhere(table, table - {Own(id)}, clusters, clusters - {id}, id);
  }

  /** Documents of providers show in no cluster. */
  lemma ProviderChanged(table: Table<Value>, table': Table<Value>, clusters: map<ClusterId, Cluster>)
    requires Linked(table, clusters)
    requires forall k: Key | !k.ProviderKey? :: (k in table <==> k in table') && (k in table ==> table[k] == table'[k])
    ensures Linked(table', clusters)
  {
    forall id ensures ShowsCluster(table', clusters, id) {
      assert ShowsCluster(table, clusters, id);
      ShowsElsewhere(table, table', clusters, id);
    }
  }

  lemma BelowProvider(table: Table<Value>, clusters: map<ClusterId, Cluster>, name: string)
    requires Closed(table) && Linked(table, clusters)
    ensures (forall k | k in table && Matches(ProviderKey(name), k) :: k == ProviderKey(name)) <==>
      forall id | id in clusters :: id.0 != name
  {
    forall id ensures id in clusters <==> Own(id) in table {
      assert ShowsCluster(table, clusters, id);
    }
    if k: Key :| k in table && Matches(ProviderKey(name), k) && k != ProviderKey(name) {
      var id := (k.provider, k.cluster);
      assert Matches(Own(id), k);
      assert id in clusters;
    }
    if id: ClusterId :| id in clusters && id.0 == name {
      assert Matches(ProviderKey(name), Own(id));
    }
  }

  // ---------------------------------------------------------------- the handlers

  class Client {
    /** The collection "cluster". */
    const db: Store<Value>

    /** The context store. */
    var contexts: map<string, Context>

    /** The clusters the documents stand for. */
    ghost var clusters: map<ClusterId, Cluster>

    ghost function Now(): World
      reads this
    {
      World(clusters, contexts)
    }

    /** The documents are in order and spell out the clusters. */
    ghost predicate Documented()
      reads this, db
    {
      db.Valid() && Linked(db.table, clusters)
    }

    ghost predicate Valid()
      reads this, db
    {
      Documented() && Inv(Now())
    }

    constructor ()
      ensures Valid() && fresh(db) && Now() == World(map[], map[])
    {
      db := new Store<Value>();
      contexts, clusters := map[], map[];
    }

    // -------------------------------------------------------------- cluster.go

    method CreateClusterProvider(name: string, metadata: string) returns (outcome: Outcome)
      requires Valid()
      modifies db
      ensures Valid() && Now() == old(Now()) && ProviderKey(name) in db.table
      ensures outcome == if ProviderKey(name) in old(db.table) then Failed else Done
    {
      var existing := db.Find(ProviderKey(name), ClusterMetadata);
      if existing != [] {
        return Failed;
      }
      db.Insert(ProviderKey(name), ClusterMetadata, Text(metadata));
      ProviderChanged(old(db.table), db.table, clusters);
      outcome := Done;
    }

    /** A provider can be deleted exactly when nothing is left below it. */
    method DeleteClusterProvider(name: string) returns (outcome: Outcome)
      requires Valid()
      modifies db
      ensures Valid() && Now() == old(Now())
      ensures outcome == Done <==> forall id | id in old(clusters) :: id.0 != name
      ensures outcome == Done ==> ProviderKey(name) !in db.table
    {
      BelowProvider(db.table, clusters, name);
      var ok := db.Remove(ProviderKey(name));
      ProviderChanged(old(db.table), db.table, clusters);
      outcome := if ok then Done else Failed;
    }

    method GetClusterState(id: ClusterId) returns (s: Option<seq<ActionEntry>>)
      requires Documented()
      ensures s == if id in clusters then Some(clusters[id].actions) else None
    {
      assert ShowsCluster(db.table, clusters, id);
      var values := db.Find(Own(id), StateTag);
      s := if values == [] then None else Some(values[0].value.actions);
    }

    method CreateCluster(id: ClusterId, metadata: string, content: string) returns (outcome: Outcome)
      requires Valid()
      modifies db, this`clusters
      ensures Valid()
      ensures (Now(), outcome) == Step(old(Now()), Op.CreateCluster(id, ProviderKey(id.0) in old(db.table)))
      ensures db.table ==
        if outcome != Done then old(db.table)
        else old(db.table)[ClusterKey(id.0, id.1) := NewDocument(metadata, content)]
    {
      var provider := db.Find(ProviderKey(id.0), ClusterMetadata);
      if provider == [] {
        return Failed;
      }
      assert ShowsCluster(db.table, clusters, id);
      var existing := db.Find(Own(id), ClusterMetadata);
      if existing != [] {
        return Failed;
      }
      NewCluster(id, metadata, content);
      StepKeepsInv(old(Now()), Op.CreateCluster(id, true));
      outcome := Done;
    }

    /** Three inserts, the last of which makes the cluster. */
    method NewCluster(id: ClusterId, metadata: string, content: string)
      requires Documented() && id !in clusters && ProviderKey(id.0) in db.table
      modifies db, this`clusters
      ensures Documented() && clusters == old(clusters)[id := Cluster([ActionEntry(Created, "")], map[], map[], {})]
      ensures db.table == old(db.table)[ClusterKey(id.0, id.1) := NewDocument(metadata, content)]
    {
      ghost var table := db.table;
      assert Own(id) !in table by { assert ShowsCluster(table, clusters, id); }
      ThreeInserts(table, Own(id), metadata, content);
      db.Insert(Own(id), ClusterMetadata, Text(metadata));
      db.Insert(Own(id), ClusterContent, Text(content));
      db.Insert(Own(id), StateTag, StateInfo([ActionEntry(Created, "")]));
      OwnPut(table, clusters, id, NewDocument(metadata, content));
      clusters := clusters[id := Cluster([ActionEntry(Created, "")], map[], map[], {})];
    }

    /** Labels and key-value pairs. */
    method CreateOther(id: ClusterId, kind: ChildKind, name: string, metadata: string) returns (outcome: Outcome)
      requires Valid() && kind in {LabelChild, KvPairsChild}
      modifies db, this`clusters
      ensures Valid()
      ensures outcome == Done <==> id in old(clusters) && AsOther(kind, name) * old(clusters)[id].others == {}
      ensures outcome == Done ==>
        Now() == Step(old(Now()), SetOthers(id, old(clusters)[id].others + AsOther(kind, name))).0
      ensures outcome != Done ==> Now() == old(Now()) && db.table == old(db.table)
      ensures outcome == Done ==>
        var c := old(clusters)[id];
        var other := if kind == LabelChild then Label(name) else KvPairs(name);
        && db.table == Put(old(db.table), ChildKey(id.0, id.1, kind, name), ClusterMetadata, Text(metadata))
        && clusters == old(clusters)[id := Cluster(c.actions, c.networks, c.providerNets, c.others + {other})]
    {
      assert ShowsCluster(db.table, clusters, id);
      var cluster := db.Find(Own(id), ClusterMetadata);
      if cluster == [] {
        return Failed;
      }
      var existing := db.Find(Child(id, kind, name), ClusterMetadata);
      assert existing == [] <==> AsOther(kind, name) * clusters[id].others == {} by {
        OtherThere(db.table, id, clusters[id], kind, name);
      }
      if existing != [] {
        return Failed;
      }
      InsertChild(id, kind, name, ClusterMetadata, metadata);
      StepKeepsInv(old(Now()), SetOthers(id, old(clusters)[id].others + AsOther(kind, name)));
      outcome := Done;
    }

    /** Insert under the key of a child. */
    method InsertChild(id: ClusterId, kind: ChildKind, name: string, tag: Tag, text: string)
      requires Documented() && id in clusters
      requires kind == NetworkChild || kind == ProviderNetChild ==> tag == NetworkMetadata
      modifies db, this`clusters
      ensures Documented() && clusters == old(clusters)[id := WithChild(old(clusters)[id], kind, name, text)]
      ensures db.table == Put(old(db.table), ChildKey(id.0, id.1, kind, name), tag, Text(text))
    {
      ghost var table, key := db.table, Child(id, kind, name);
      assert forall filter | filter != key && Matches(filter, key) :: filter in table by {
        assert ShowsCluster(table, clusters, id);
        assert Matches(ProviderKey(id.0), Own(id));
      }
      db.Insert(Child(id, kind, name), tag, Text(text));
      ChildPut(table, clusters, id, kind, name, db.table[key], text);
      clusters := clusters[id := WithChild(clusters[id], kind, name, text)];
    }

    /** Remove under the key of a child; nothing is below it. */
    method RemoveChild(id: ClusterId, kind: ChildKind, name: string)
      requires Documented() && id in clusters
      modifies db, this`clusters
      ensures Documented() && clusters == old(clusters)[id := WithoutChild(old(clusters)[id], kind, name)]
      ensures db.table == old(db.table) - {ChildKey(id.0, id.1, kind, name)}
    {
      ChildDropped(db.table, clusters, id, kind, name);
      var _ := db.Remove(Child(id, kind, name));
      clusters := clusters[id := WithoutChild(clusters[id], kind, name)];
    }

    /** Deleting a label or key-value pair succeeds also when there is none. */
    method DeleteOther(id: ClusterId, kind: ChildKind, name: string)
      requires Valid() && kind in {LabelChild, KvPairsChild}
      modifies db, this`clusters
      ensures Valid()
      ensures id in old(clusters) ==>
        Now() == Step(old(Now()), SetOthers(id, old(clusters)[id].others - AsOther(kind, name))).0
      ensures id !in old(clusters) ==> Now() == old(Now())
    {
      ChildForgotten(db.table, clusters, id, kind, name);
      var _ := db.Remove(Child(id, kind, name));
      if id in clusters {
        clusters := clusters[id := WithoutChild(clusters[id], kind, name)];
        StepKeepsInv(old(Now()), SetOthers(id, old(clusters)[id].others - AsOther(kind, name)));
      }
    }

    /** `ids` is the order in which Go ranges over the set of context ids. */
    method DeleteCluster(id: ClusterId) returns (outcome: Outcome, ghost ids: seq<string>)
      requires Valid()
      modifies this`contexts, this`clusters, db
      ensures Valid() && Legal(old(Now()), Op.DeleteCluster(id, ids))
      ensures (Now(), outcome) == Step(old(Now()), Op.DeleteCluster(id, ids))
      ensures db.table == if outcome == Done then old(db.table) - {ClusterKey(id.0, id.1)} else old(db.table)
    {
      ids := [];
      var s := GetClusterState(id);
      if s.None? {
        return Failed, ids;
      }
      var order := GetContextIds(s.value);
      ids := order;
      var stateVal := LastState(s.value);
      if stateVal == None || stateVal == Some(Applied) {
        return Failed, ids;
      }
      if stateVal == Some(Terminated) {
        var last := s.value[|s.value| - 1].contextId;
        if last in contexts && contexts[last].status.Some? {
          var status := contexts[last].status.value;
          if !(status == TerminateDone || status == TerminateFailed) {
            return Failed, ids;
          }
        }
        var ok := DeleteAppContexts(order);
        if !ok {
          StepKeepsInv(old(Now()), Op.DeleteCluster(id, ids));
          return Failed, ids;
        }
      }
      var removed := RemoveCluster(id);
      StepKeepsInv(old(Now()), Op.DeleteCluster(id, ids));
      outcome := if removed then Done else Failed;
    }

    method RemoveCluster(id: ClusterId) returns (ok: bool)
      requires Documented() && id in clusters
      modifies db, this`clusters
      ensures Documented() && (ok <==> !HasChildren(old(clusters)[id]))
      ensures clusters == if ok then old(clusters) - {id} else old(clusters)
      ensures db.table == if ok then old(db.table) - {ClusterKey(id.0, id.1)} else old(db.table)
    {
      assert ShowsCluster(db.table, clusters, id);
      ChildrenExactly(db.table, id, clusters[id]);
      OwnDropped(db.table, clusters, id);
      ok := db.Remove(Own(id));
      if ok {
        clusters := clusters - {id};
      }
    }

    method DeleteAppContexts(order: seq<string>) returns (ok: bool)
      modifies this`contexts
      ensures (contexts, ok) == DeleteContexts(old(contexts), order)
    {
      for i := 0 to |order|
        invariant DeleteContexts(contexts, order[i..]) == DeleteContexts(old(contexts), order)
      {
        assert order[i..][1..] == order[i + 1..];
        if order[i] !in contexts {
          return false;
        }
        contexts := contexts - {order[i]};
      }
      ok := true;
    }

    // -------------------------------------------------------------- network.go, providernet.go

    method CreateNetwork(id: ClusterId, name: string, spec: string, upsert: bool) returns (outcome: Outcome)
      requires Valid()
      modifies db, this`clusters
      ensures Valid() && (Now(), outcome) == Step(old(Now()), PutNetwork(id, name, spec, upsert))
      ensures outcome == Done ==>
        var c := old(clusters)[id];
        && db.table == Put(old(db.table), ChildKey(id.0, id.1, NetworkChild, name), NetworkMetadata, Text(spec))
        && clusters == old(clusters)[id := Cluster(c.actions, c.networks[name := spec], c.providerNets, c.others)]
      ensures outcome != Done ==> db.table == old(db.table) && Now() == old(Now())
      ensures outcome == Done <==>
        && id in old(clusters) && LastIn(old(clusters)[id], {Created, Terminated})
        && (name !in old(clusters)[id].networks || upsert)
    {
      var s := GetClusterState(id);
      if s.None? {
        return Failed;
      }
      match LastState(s.value) {
        case Some(Terminated) =>
        case Some(Created) =>
        case _ => return Failed;
      }
      outcome := CreateIntent(id, NetworkChild, name, spec, upsert);
      StepKeepsInv(old(Now()), PutNetwork(id, name, spec, upsert));
    }

    /** The part both kinds of intents share: an existence check on the intent's own document, and the insert. */
    method CreateIntent(id: ClusterId, kind: ChildKind, name: string, spec: string, upsert: bool)
        returns (outcome: Outcome)
      requires Documented() && id in clusters && kind in {NetworkChild, ProviderNetChild}
      modifies db, this`clusters
      ensures Documented()
      ensures
        var there :=
          name in if kind == NetworkChild then old(clusters)[id].networks else old(clusters)[id].providerNets;
        && outcome == (if there && !upsert then Failed else Done)
        && db.table == (if outcome == Done
                        then Put(old(db.table), ChildKey(id.0, id.1, kind, name), NetworkMetadata, Text(spec))
                        else old(db.table))
        && clusters ==
             if outcome == Done then old(clusters)[id := WithChild(old(clusters)[id], kind, name, spec)]
           else old(clusters)
    {
      assert ShowsCluster(db.table, clusters, id);
      var existing := db.Find(Child(id, kind, name), NetworkMetadata);
      if existing != [] && !upsert {
        return Failed;
      }
      InsertChild(id, kind, name, NetworkMetadata, spec);
      outcome := Done;
    }

    method DeleteNetwork(id: ClusterId, name: string) returns (outcome: Outcome)
      requires Valid()
      modifies db, this`clusters
      ensures Valid() && (Now(), outcome) == Step(old(Now()), DropNetwork(id, name))
      ensures outcome == Done ==>
        var c := old(clusters)[id];
        && db.table == old(db.table) - {ChildKey(id.0, id.1, NetworkChild, name)}
        && clusters == old(clusters)[id := Cluster(c.actions, c.networks - {name}, c.providerNets, c.others)]
      ensures outcome != Done ==> db.table == old(db.table) && Now() == old(Now())
      ensures outcome == Done <==> id in old(clusters) && LastIn(old(clusters)[id], {Created, Terminated})
    {
      var s := GetClusterState(id);
      if s.None? {
        return Failed;
      }
      match LastState(s.value) {
        case Some(Terminated) =>
        case Some(Created) =>
        case _ => return Failed;
      }
      RemoveChild(id, NetworkChild, name);
      StepKeepsInv(old(Now()), DropNetwork(id, name));
      outcome := Done;
    }

    /** Refusals of a state wrap the nil error of reading it. */
    method CreateProviderNet(id: ClusterId, name: string, spec: string, upsert: bool) returns (outcome: Outcome)
      requires Valid()
      modifies db, this`clusters
      ensures Valid() && (Now(), outcome) == Step(old(Now()), PutProviderNet(id, name, spec, upsert))
      ensures outcome == Done ==>
        var c := old(clusters)[id];
        && db.table == Put(old(db.table), ChildKey(id.0, id.1, ProviderNetChild, name), NetworkMetadata, Text(spec))
        && clusters == old(clusters)[id := Cluster(c.actions, c.networks, c.providerNets[name := spec], c.others)]
      ensures outcome != Done ==> db.table == old(db.table) && Now() == old(Now())
      ensures outcome == Done <==>
        && id in old(clusters) && LastIn(old(clusters)[id], {Created, Terminated})
        && (name !in old(clusters)[id].providerNets || upsert)
    {
      var s := GetClusterState(id);
      if s.None? {
        return Failed;
      }
      match LastState(s.value) {
        case None => return Failed;
        case Some(Terminated) =>
        case Some(Created) =>
        case Some(_) => return Silent;
      }
      outcome := CreateIntent(id, ProviderNetChild, name, spec, upsert);
      StepKeepsInv(old(Now()), PutProviderNet(id, name, spec, upsert));
    }

    method DeleteProviderNet(id: ClusterId, name: string) returns (outcome: Outcome)
      requires Valid()
      modifies db, this`clusters
      ensures Valid() && (Now(), outcome) == Step(old(Now()), DropProviderNet(id, name))
      ensures outcome == Done ==>
        var c := old(clusters)[id];
        && db.table == old(db.table) - {ChildKey(id.0, id.1, ProviderNetChild, name)}
        && clusters == old(clusters)[id := Cluster(c.actions, c.networks, c.providerNets - {name}, c.others)]
      ensures outcome != Done ==> db.table == old(db.table) && Now() == old(Now())
      ensures outcome == Done <==> id in old(clusters) && LastIn(old(clusters)[id], {Created, Terminated})
    {
      var s := GetClusterState(id);
      if s.None? {
        return Failed;
      }
      match LastState(s.value) {
        case None => return Failed;
        case Some(Terminated) =>
        case Some(Created) =>
        case Some(_) => return Silent;
      }
      RemoveChild(id, ProviderNetChild, name);
      StepKeepsInv(old(Now()), DropProviderNet(id, name));
      outcome := Done;
    }

    // -------------------------------------------------------------- ovncontroller.go

    /** The intents of one kind, as resources, in the order the database returns them. */
    method ListResources(id: ClusterId, kind: Kind) returns (resources: seq<(ResourceName, string)>)
      requires Documented() && id in clusters
      ensures Lists(resources, ResourcesOf(clusters[id]), kind)
    {
      var childKind := if kind == Network then NetworkChild else ProviderNetChild;
      assert ShowsCluster(db.table, clusters, id);
      var children := db.FindChildren(id.0, id.1, childKind);
      resources := [];
      for i := 0 to |children|
        invariant |resources| == i
        invariant forall k | 0 <= k < i :: resources[k] == Resource(children[k], kind)
      {
        resources := resources + [Resource(children[i], kind)];
      }
      ResourcesListed(db.table, id, clusters[id], kind, children, resources);
    }

    /** Every intent of the cluster becomes a resource of the context; the order instruction names each once. */
    method OvnApply(id: ClusterId, ctx: string) returns (ghost order: seq<ResourceName>)
      requires Documented() && id in clusters && ctx in contexts && contexts[ctx] == Context(map[], [], None)
      modifies this`contexts
      ensures contexts == old(contexts)[ctx := Context(ResourcesOf(clusters[id]), order, None)]
      ensures IsOrder(order, ResourcesOf(clusters[id]))
    {
      ghost var documents := ResourcesOf(clusters[id]);
      var networks := ListResources(id, Network);
      var providerNets := ListResources(id, ProviderNetwork);
      var resources := networks + providerNets;
      AllListed(documents, networks, providerNets);
      order := NamesOf(resources);
      if |resources| == 0 {
        assert documents == map[];
        return;
      }
      AddResources(documents, ctx, resources);
    }

    /** The loop over the resources: each is added to the context under its name, and to the order instruction. */
    method AddResources(ghost documents: map<ResourceName, string>, ctx: string, resources: seq<(ResourceName, string)>)
      requires ctx in contexts && contexts[ctx] == Context(map[], [], None)
      requires forall i | 0 <= i < |resources| ::
        resources[i].0 in documents && documents[resources[i].0] == resources[i].1
      requires forall r | r in documents :: exists i | 0 <= i < |resources| :: resources[i].0 == r
      modifies this`contexts
      ensures contexts == old(contexts)[ctx := Context(documents, NamesOf(resources), None)]
    {
      var order: seq<ResourceName> := [];
      var added: map<ResourceName, string> := map[];
      for i := 0 to |resources|
        invariant order == NamesOf(resources[..i])
        invariant forall k | 0 <= k < i :: resources[k].0 in added
        invariant forall r | r in added :: r in documents && added[r] == documents[r]
        invariant contexts == old(contexts)[ctx := Context(added, [], None)]
      {
        order := order + [resources[i].0];
        added := added[resources[i].0 := resources[i].1];
        contexts := contexts[ctx := contexts[ctx].(resources := added)];
      }
      assert added == documents && resources[..|resources|] == resources;
      contexts := contexts[ctx := contexts[ctx].(order := order)];
    }

    // -------------------------------------------------------------- scheduler.go

    /** `ctx` is the identity of the new context, `order` the order instruction that ends up in it. */
    method ApplyNetworkIntents(id: ClusterId, ctx: string, failure: Failure)
        returns (outcome: Outcome, ghost order: seq<ResourceName>)
      requires Valid() && ctx != "" && ctx !in contexts && forall other :: !Owns(Now(), other, ctx)
      modifies this`contexts, this`clusters, db
      ensures Valid() && (Now(), outcome) == Step(old(Now()), Apply(id, ctx, order, failure))
      ensures ctx in contexts ==> IsOrder(order, contexts[ctx].resources)
      ensures ctx in contexts ==>
        outcome == Done && db.table == Put(old(db.table), ClusterKey(id.0, id.1), StateTag,
                                           StateInfo(old(clusters)[id].actions + [ActionEntry(Applied, ctx)]))
      ensures ctx !in contexts ==> db.table == old(db.table) && Now() == old(Now())
      ensures ctx in contexts <==>
        id in old(clusters) && LastIn(old(clusters)[id], {Created, Terminated}) && failure == Nothing
    {
      order := [];
      var s := GetClusterState(id);
      if s.None? {
        return Failed, order;
      }
      match LastState(s.value) {
        case None => return Failed, order;
        case Some(Applied) => return Done, order;
        case Some(Terminated) =>
        case Some(Created) =>
        case Some(_) => return Silent, order;
      }
      outcome, order := ApplyIntents(id, ctx, failure, s.value);
      assert Inv(Now()) by { StepKeepsInv(old(Now()), Apply(id, ctx, order, failure)); }
    }

    /** What happens in a state that allows it. */
    method ApplyIntents(id: ClusterId, ctx: string, failure: Failure, actions: seq<ActionEntry>)
        returns (outcome: Outcome, ghost order: seq<ResourceName>)
      requires Documented() && id in clusters && actions == clusters[id].actions && Editable(clusters[id]) &&
        ctx !in contexts
      modifies this`contexts, this`clusters, db
      ensures Documented() && (Now(), outcome) == Step(old(Now()), Apply(id, ctx, order, failure))
      ensures ctx in contexts ==> IsOrder(order, contexts[ctx].resources)
      ensures outcome == (if failure == Nothing then Done else Failed) && (ctx in contexts <==> failure == Nothing)
      ensures db.table ==
        if failure != Nothing then old(db.table)
        else Put(old(db.table), ClusterKey(id.0, id.1), StateTag, StateInfo(actions + [ActionEntry(Applied, ctx)]))
      ensures failure != Nothing ==> Now() == old(Now())
    {
      var ok;
      ok, order := MakeContext(id, ctx, failure);
      if ok {
        AppendAction(id, ActionEntry(Applied, ctx), actions);
      }
      ApplyStep(old(Now()), id, ctx, order, failure);
      outcome := if ok then Done else Failed;
    }

    /** The context is made, filled and handed to rsync; on a failure it is deleted again. */
    method MakeContext(id: ClusterId, ctx: string, failure: Failure) returns (ok: bool, ghost order: seq<ResourceName>)
      requires Documented() && id in clusters && ctx !in contexts
      modifies this`contexts
      ensures ok <==> failure == Nothing
      ensures !ok ==> contexts == old(contexts) == old(contexts) - {ctx}
      ensures ok ==> contexts == old(contexts)[ctx := Context(ResourcesOf(clusters[id]), order, None)]
      ensures ok ==> IsOrder(order, ResourcesOf(clusters[id]))
    {
      order := [];
      contexts := contexts[ctx := Context(map[], [], None)];
      if failure == OvnFails {
        contexts := contexts - {ctx};
        return false, order;
      }
      order := OvnApply(id, ctx);
      if failure == RsyncFails {
        contexts := contexts - {ctx};
        return false, order;
      }
      ok := true;
    }

    /** The state information is written back with one more action. */
    method AppendAction(id: ClusterId, a: ActionEntry, actions: seq<ActionEntry>)
      requires Documented() && id in clusters && actions == clusters[id].actions
      modifies db, this`clusters
      ensures Documented() && clusters == old(clusters)[id := old(clusters)[id].(actions := actions + [a])]
      ensures db.table == Put(old(db.table), ClusterKey(id.0, id.1), StateTag, StateInfo(actions + [a]))
    {
      ghost var table := db.table;
      assert forall filter | filter != Own(id) && Matches(filter, Own(id)) :: filter in table by {
        assert ShowsCluster(table, clusters, id);
      }
      db.Insert(Own(id), StateTag, StateInfo(actions + [a]));
      OwnPut(table, clusters, id, db.table[Own(id)]);
      clusters := clusters[id := clusters[id].(actions := actions + [a])];
    }

    method TerminateNetworkIntents(id: ClusterId, accepted: bool) returns (outcome: Outcome)
      requires Valid()
      modifies db, this`clusters
      ensures Valid() && (Now(), outcome) == Step(old(Now()), Terminate(id, accepted))
      ensures outcome == Done && LastIn(old(clusters)[id], {Applied}) ==>
        var c := old(clusters)[id];
        var actions := c.actions + [ActionEntry(Terminated, c.actions[|c.actions| - 1].contextId)];
        && accepted && contexts == old(contexts)
        && db.table == Put(old(db.table), ClusterKey(id.0, id.1), StateTag, StateInfo(actions))
        && clusters == old(clusters)[id := Cluster(actions, c.networks, c.providerNets, c.others)]
      ensures outcome != Done || !LastIn(old(clusters)[id], {Applied}) ==>
        db.table == old(db.table) && Now() == old(Now())
      ensures outcome == Done <==>
        && id in old(clusters)
        && (LastIn(old(clusters)[id], {Terminated}) || (LastIn(old(clusters)[id], {Applied}) && accepted))
    {
      var s := GetClusterState(id);
      if s.None? {
        return Failed;
      }
      match LastState(s.value) {
        case None => return Failed;
        case Some(Terminated) => return Done;
        case Some(Applied) =>
        case Some(_) => return Silent;
      }
      var contextId := s.value[|s.value| - 1].contextId;
      if !accepted {
        return Failed;
      }
      AppendAction(id, ActionEntry(Terminated, contextId), s.value);
      StepKeepsInv(old(Now()), Terminate(id, accepted));
      outcome := Done;
    }

    /** rsync writes the status of a context. */
    method ReportStatus(ctx: string, status: ContextStatus) returns (outcome: Outcome)
      requires Valid()
      modifies this`contexts
      ensures Valid() && (Now(), outcome) == Step(old(Now()), Report(ctx, status))
    {
      if ctx !in contexts {
        return Failed;
      }
      contexts := contexts[ctx := contexts[ctx].(status := Some(status))];
      StepKeepsInv(old(Now()), Report(ctx, status));
      outcome := Done;
    }
  }

  lemma ThreeInserts(table: Table<Value>, key: Key, metadata: string, content: string)
    requires key !in table
    ensures
      var first := Put(table, key, ClusterMetadata, Text(metadata));
      var second := Put(first, key, ClusterContent, Text(content));
      Put(second, key, StateTag, StateInfo([ActionEntry(Created, "")])) == table[key := NewDocument(metadata, content)]
  {
  }

  /** The document of a new cluster. */
  function NewDocument(metadata: string, content: string): map<Tag, Value> {
    map[ClusterMetadata := Text(metadata), ClusterContent := Text(content),
        StateTag := StateInfo([ActionEntry(Created, "")])]
  }

  /** GetCurrentStateFromStateInfo. */
  function LastState(actions: seq<ActionEntry>): Option<StateValue> {
    if actions == [] then None else Some(actions[|actions| - 1].state)
  }

  /** GetContextIdsFromStateInfo: the distinct ids, in the order in which Go ranges over a map. */
  method GetContextIds(actions: seq<ActionEntry>) returns (ids: seq<string>)
    ensures forall ctx :: ctx in ids <==> ctx in ContextIds(actions)
    ensures forall i, j | 0 <= i < j < |ids| :: ids[i] != ids[j]
  {
    var m: set<string> := {};
    for i := 0 to |actions|
      invariant forall ctx :: ctx in m <==> ctx in ContextIds(actions[..i])
    {
      assert actions[..i + 1] == actions[..i] + [actions[i]];
      ContextIdsAppend(actions[..i], actions[i]);
      if actions[i].contextId != "" {
        m := m + {actions[i].contextId};
      }
    }
    assert actions[..|actions|] == actions;
    ids := [];
    ghost var all := m;
    while m != {}
      invariant forall ctx :: ctx in all <==> ctx in m || ctx in ids
      invariant forall k | 0 <= k < |ids| :: ids[k] !in m
      invariant forall i, j | 0 <= i < j < |ids| :: ids[i] != ids[j]
    {
      var ctx :| ctx in m;
      ids := ids + [ctx];
      m := m - {ctx};
    }
  }

  // ---------------------------------------------------------------- resources

  function Resource(d: Document<Value>, kind: Kind): (ResourceName, string) {
    var name := if d.key.ChildKey? then d.key.name else "";
    var text := if NetworkMetadata in d.tags && d.tags[NetworkMetadata].Text? then d.tags[NetworkMetadata].text else "";
    (ResourceName(name, kind), text)
  }

  function NamesOf(resources: seq<(ResourceName, string)>): seq<ResourceName> {
    seq(|resources|, i requires 0 <= i < |resources| => resources[i].0)
  }

  /** The resources of one kind, each once, with its document. */
  ghost predicate Lists(resources: seq<(ResourceName, string)>, documents: map<ResourceName, string>, kind: Kind) {
    && (forall i | 0 <= i < |resources| ::
      resources[i].0.kind == kind && resources[i].0 in documents && documents[resources[i].0] == resources[i].1)
    && (forall i, j | 0 <= i < j < |resources| :: resources[i].0 != resources[j].0)
    && (forall r | r in documents && r.kind == kind :: exists i | 0 <= i < |resources| :: resources[i].0 == r)
  }

  /** The order instruction names every resource once, networks before provider networks. */
  ghost predicate IsOrder(order: seq<ResourceName>, documents: map<ResourceName, string>) {
    && (forall r :: r in order <==> r in documents)
    && (forall i, j | 0 <= i < j < |order| ::
      order[i] != order[j] && (order[i].kind == ProviderNetwork ==> order[j].kind == ProviderNetwork))
  }

  lemma ResourcesListed(table: Table<Value>, id: ClusterId, c: Cluster, kind: Kind, children: seq<Document<Value>>,
                        resources: seq<(ResourceName, string)>)
    requires Spells(table, id, c)
    requires forall i, j | 0 <= i < j < |children| :: children[i].key != children[j].key
    requires
      var childKind := if kind == Network then NetworkChild else ProviderNetChild;
      && (forall i | 0 <= i < |children| ::
        IsChild(children[i].key, id.0, id.1, childKind) &&
        children[i].key in table && table[children[i].key] == children[i].tags)
      && (forall key | key in table && IsChild(key, id.0, id.1, childKind) :: Has(children, key))
    requires |resources| == |children| && forall k | 0 <= k < |children| :: resources[k] == Resource(children[k], kind)
    ensures Lists(resources, ResourcesOf(c), kind)
  {
    var childKind := if kind == Network then NetworkChild else ProviderNetChild;
    var intents := if kind == Network then c.networks else c.providerNets;
    assert SpellsIntents(table, id, childKind, intents);
    forall i | 0 <= i < |children| ensures children[i].key == Child(id, childKind, resources[i].0.intent) {
    }
    forall r | r in ResourcesOf(c) && r.kind == kind ensures exists i | 0 <= i < |resources| :: resources[i].0 == r {
      assert r.intent in intents;
      assert Has(children, Child(id, childKind, r.intent));
      var i :| 0 <= i < |children| && children[i].key == Child(id, childKind, r.intent);
      assert resources[i].0 == r;
    }
    forall i | 0 <= i < |resources|
      ensures resources[i].0 in ResourcesOf(c) && ResourcesOf(c)[resources[i].0] == resources[i].1 {
      assert resources[i].0.intent in intents;
    }
  }

  lemma AllListed(documents: map<ResourceName, string>, networks: seq<(ResourceName, string)>,
                  providerNets: seq<(ResourceName, string)>)
    requires Lists(networks, documents, Network) && Lists(providerNets, documents, ProviderNetwork)
    ensures
      var resources := networks + providerNets;
      && (forall i | 0 <= i < |resources| :: resources[i].0 in documents && documents[resources[i].0] == resources[i].1)
      && (forall r | r in documents :: exists i | 0 <= i < |resources| :: resources[i].0 == r)
      && IsOrder(NamesOf(resources), documents)
  {
    var resources := networks + providerNets;
    forall r | r in documents ensures exists i | 0 <= i < |resources| :: resources[i].0 == r {
      ListedAt(documents, networks, providerNets, r);
    }
    var order := NamesOf(resources);
    forall r | r in documents ensures r in order {
      var i :| 0 <= i < |resources| && resources[i].0 == r;
      assert order[i] == r;
    }
    assert forall i | 0 <= i < |order| :: order[i] == resources[i].0;
  }

  lemma ListedAt(documents: map<ResourceName, string>, networks: seq<(ResourceName, string)>,
                 providerNets: seq<(ResourceName, string)>, r: ResourceName)
    requires Lists(networks, documents, Network) && Lists(providerNets, documents, ProviderNetwork) && r in documents
    ensures exists i | 0 <= i < |networks + providerNets| :: (networks + providerNets)[i].0 == r
  {
    if r.kind == Network {
      var i :| 0 <= i < |networks| && networks[i].0 == r;
      assert (networks + providerNets)[i].0 == r;
    } else {
      var i :| 0 <= i < |providerNets| && providerNets[i].0 == r;
      assert (networks + providerNets)[|networks| + i].0 == r;
    }
  }

  lemma OtherThere(table: Table<Value>, id: ClusterId, c: Cluster, kind: ChildKind, name: string)
    requires Spells(table, id, c) && kind in {LabelChild, KvPairsChild}
    ensures AsOther(kind, name) * c.others == {} <==> Child(id, kind, name) !in table
  {
    var o := if kind == LabelChild then Label(name) else KvPairs(name);
    assert AsOther(kind, name) == {o};
    assert o in c.others <==> Child(id, kind, name) in table;
    if o in c.others {
      assert o in AsOther(kind, name) * c.others;
    }
  }
}
