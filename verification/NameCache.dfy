/** The name generator of namegenerator.go: names handed out, remembered in memory and in the document store. */
module NameCache {
  import opened Wrappers
  import opened DocumentStore
  import MongoStore

  type Names = set<string>

  const KEY := "k8sPluginCacheKey"
  const TAG := "names"

  /** The names a state of the collection remembers. */
  ghost function Persisted(docs: Docs<Names>): Names
    requires Inv(docs)
  {
    if (KEY, TAG) in View(docs) then View(docs)[(KEY, TAG)] else {}
  }

  /** A state the generator can start from: a master for the cache has the names. */
  ghost predicate Usable(docs: Docs<Names>) {
    Inv(docs) && (MasterOf(docs, KEY).Some? ==> (KEY, TAG) in View(docs))
  }

  ghost predicate Remembering(steps: seq<Docs<Names>>, docs: Docs<Names>, names: Names)
    requires Inv(docs)
  {
    forall s | s in steps :: Usable(s) && Persisted(s) in {Persisted(docs), names}
  }

  /** Writing the names leaves, at every step, either the old names or the new ones, and a state to start from. */
  lemma StatesRemember(docs: Docs<Names>, id: ObjectId, spare: ObjectId, op: Op<Names>)
    requires Usable(docs) && id !in docs && spare !in docs && id != spare
    requires !op.Delete? && op.key == KEY && op.tag == TAG
    requires op.Update? ==> (KEY, TAG) in View(docs)
    ensures Remembering(States(docs, id, spare, op), docs, op.data)
  {
    EveryStateAtomic(docs, id, spare, op);
    if (KEY, TAG) !in View(docs) {
      MongoStore.InsertedMaster(docs, id, TAG, op.data, KEY);
      PointKeeps(docs, id, spare, KEY, TAG, op.data);
    }
  }

  lemma CreateRemembers(docs: Docs<Names>, next: ObjectId, names: Names) returns (steps: seq<Docs<Names>>)
    requires Usable(docs) && forall i | i in docs :: i < next
    ensures steps == States(docs, next, next + 1, Op.Create(KEY, TAG, names)) && Remembering(steps, docs, names)
  {
    steps := States(docs, next, next + 1, Op.Create(KEY, TAG, names));
    StatesRemember(docs, next, next + 1, Op.Create(KEY, TAG, names));
  }

  lemma Written(docs: Docs<Names>, docs': Docs<Names>, names: Names)
    requires Inv(docs) && Inv(docs') && View(docs') == View(docs)[(KEY, TAG) := names]
    ensures Usable(docs') && Persisted(docs') == names
  {
  }

  class Cache {
    const store: MongoStore.Store<Names>

    /** None until the first request after a start of the plugin. */
    var cache: Option<Names>

    /** Every name ever returned. */
    ghost var issued: Names

    ghost predicate Valid()
      reads this, store
    {
      && store.Valid() && Usable(store.docs)
      && issued <= Persisted(store.docs)
      && (cache.Some? ==> cache.value == Persisted(store.docs))
    }

    constructor (store: MongoStore.Store<Names>)
      requires store.Valid() && MasterOf(store.docs, KEY).None?
      ensures Valid() && this.store == store && issued == {}
    {
      this.store := store;
      cache, issued := None, {};
      new;
      PointerMeaning(store.docs, KEY, TAG);
    }

    /** A plugin that starts on what another one has left, at any step of whatever that one was doing. */
    constructor Restarted(store: MongoStore.Store<Names>, ghost issued: Names)
      requires store.Valid() && Usable(store.docs) && issued <= Persisted(store.docs)
      ensures Valid() && this.store == store && this.issued == issued && cache == None
    {
      this.store := store;
      this.cache, this.issued := None, issued;
    }

    /** The plugin stops and starts: the memory is gone. */
    method Restart()
      requires Valid()
      modifies this`cache
      ensures Valid() && cache == None
    {
      cache := None;
    }

    method Init()
      requires Valid()
      modifies this`cache
      ensures Valid() && cache == Some(Persisted(store.docs))
    {
      if cache.None? {
        var data, error := store.Read(KEY, TAG);
        cache := Some(if data.Some? then data.value else {});
      }
    }

    /** An Update, or a Create when the store has no master for the cache yet. `steps` are the states passed through. */
    method WriteCacheToDb() returns (ghost steps: seq<Docs<Names>>)
      requires store.Valid() && Usable(store.docs) && cache.Some?
      modifies store
      ensures store.Valid() && Usable(store.docs) && Persisted(store.docs) == cache.value
      ensures store.history == old(store.history) + steps
      ensures Remembering(steps, old(store.docs), cache.value)
    {
      ghost var docs, next := store.docs, store.next;
      var error := store.Update(KEY, TAG, cache);
      if error == Some(NoMaster) {
        steps := CreateCache();
      } else {
        ghost var op := Op.Update(KEY, TAG, cache.value);
        steps := States(docs, next, next + 1, op);
        StatesRemember(docs, next, next + 1, op);
      }
    }

    method CreateCache() returns (ghost steps: seq<Docs<Names>>)
      requires store.Valid() && Usable(store.docs) && cache.Some?
      modifies store
      ensures store.Valid() && Usable(store.docs) && Persisted(store.docs) == cache.value
      ensures store.history == old(store.history) + steps
      ensures Remembering(steps, old(store.docs), cache.value)
    {
      ghost var docs, next, names := store.docs, store.next, cache.value;
      var _ := store.Create(KEY, TAG, cache);
      steps := CreateRemembers(docs, next, names);
      Written(docs, store.docs, names);
    }

    /**
     * No name is handed out twice, over any number of restarts: the name is new, memory and store agree when it is
     * returned, and a crash at any database step on the way loses none of the names returned before.
     */
    method GenerateName(candidates: seq<string>) returns (name: string, ghost steps: seq<Docs<Names>>)
      requires Valid()
      requires exists i :: 0 <= i < |candidates| && candidates[i] !in Persisted(store.docs)
      modifies this, store
      ensures Valid()
      ensures name !in old(issued) && issued == old(issued) + {name}
      ensures cache == Some(Persisted(store.docs)) && Persisted(store.docs) == old(Persisted(store.docs)) + {name}
      ensures exists i | 0 <= i < |candidates| ::
        candidates[i] == name && forall j | 0 <= j < i :: candidates[j] in old(Persisted(store.docs))
      ensures store.history == old(store.history) + steps
      ensures forall s | s in steps :: Usable(s) && old(issued) <= Persisted(s)
    {
      Init();
      name := FirstUnused(candidates, cache.value);
      cache := Some(cache.value + {name});
      steps := WriteCacheToDb();
      issued := issued + {name};
    }
  }

  /** The retry loop: random names are drawn until one is not in use. */
  method FirstUnused(candidates: seq<string>, used: Names) returns (name: string)
    requires exists i :: 0 <= i < |candidates| && candidates[i] !in used
    ensures name !in used
    ensures exists i | 0 <= i < |candidates| :: candidates[i] == name && forall j | 0 <= j < i :: candidates[j] in used
  {
    var i := 0;
    while candidates[i] in used
      invariant 0 <= i < |candidates|
      invariant forall j | 0 <= j < i :: candidates[j] in used
      decreases |candidates| - i
    {
      i := i + 1;
    }
    name := candidates[i];
  }
}
