/** MongoStore of db/mongo.go over one collection, step by step on the collection's documents. */
module MongoStore {
  import opened Wrappers
  import opened DocumentStore

  /** What is missing of a pair in the table: the key, or only the tag. */
  ghost function Missing<D(!new)>(t: Table<D>, key: string, tag: string): Option<Error> {
    if (key, tag) in t then None else if forall other :: (key, other) !in t then Some(NoMaster) else Some(NoTag)
  }

  class Store<D(!new)> {
    var docs: Docs<D>

    /** The next identity the database hands out. */
    var next: ObjectId

    /** Every state the collection has been in: each database step adds one. A crash leaves the last of them. */
    ghost var history: seq<Docs<D>>

    ghost predicate Valid()
      reads this
    {
      Inv(docs) && forall i | i in docs :: i < next
    }

    constructor ()
      ensures Valid() && docs == map[] && history == []
    {
      docs, next, history := map[], 0, [];
    }

    /** A store on what an earlier process has left. */
    constructor Reopened(docs: Docs<D>, next: ObjectId)
      requires Inv(docs) && forall i | i in docs :: i < next
      ensures Valid() && this.docs == docs && history == []
    {
      this.docs, this.next, history := docs, next, [];
    }

    // -------------------------------------------------------------- database steps

    method InsertOne(tag: string, data: D) returns (id: ObjectId)
      modifies this
      ensures id == old(next) && next == old(next) + 1
      ensures docs == Inserted(old(docs), id, tag, data) && history == old(history) + [docs]
    {
      id := next;
      next := next + 1;
      docs := docs[id := Document(None, map[tag := Blob(data)])];
      history := history + [docs];
    }

    method FindMaster(key: string) returns (master: Option<ObjectId>)
      requires Inv(docs)
      ensures master == MasterOf(docs, key)
    {
      if m :| m in docs && docs[m].key == Some(key) {
        assert IsMaster(docs, m, key);
        return Some(m);
      }
      return None;
    }

    /** FindOneAndUpdate on the master of a key, with upsert. */
    method SetPointer(key: string, tag: string, id: ObjectId)
      requires Inv(docs) && forall i | i in docs :: i < next
      modifies this
      ensures docs == Pointed(old(docs), MasterOf(old(docs), key), old(next), key, tag, id)
      ensures next == old(next) + 1 && history == old(history) + [docs]
    {
      var master := FindMaster(key);
      if master.Some? {
        docs := docs[master.value := docs[master.value].(fields := docs[master.value].fields[tag := Ref(id)])];
      } else {
        docs := docs[next := Document(Some(key), map[tag := Ref(id)])];
      }
      next := next + 1;
      history := history + [docs];
    }

    method SetData(id: ObjectId, tag: string, data: D)
      requires id in docs
      modifies this`docs, this`history
      ensures docs == Replaced(old(docs), id, tag, data) && history == old(history) + [docs]
    {
      docs := docs[id := docs[id].(fields := docs[id].fields[tag := Blob(data)])];
      history := history + [docs];
    }

    /** FindOneAndUpdate with $unset, returning the document as it was before. */
    method UnsetTag(m: ObjectId, tag: string) returns (before: Document<D>)
      requires m in docs
      modifies this`docs, this`history
      ensures before == old(docs)[m]
      ensures docs == Unpointed(old(docs), m, tag) && history == old(history) + [docs]
    {
      before := docs[m];
      docs := docs[m := before.(fields := before.fields - {tag})];
      history := history + [docs];
    }

    method DeleteOne(id: ObjectId)
      modifies this`docs, this`history
      ensures docs == old(docs) - {id} && history == old(history) + [docs]
    {
      docs := docs - {id};
      history := history + [docs];
    }

    // -------------------------------------------------------------- operations

    ghost predicate Reserved(tag: string) {
      tag == "_id" || tag == "key"
    }

    method Create(key: string, tag: string, data: Option<D>) returns (error: Option<Error>)
      requires Valid() && !Reserved(tag)
      modifies this
      ensures Valid()
      ensures error == if data.None? || key == "" || tag == "" then Some(Incomplete) else None
      ensures error.Some? ==> docs == old(docs) && history == old(history)
      ensures error.None? ==>
        var op := Op.Create(key, tag, data.value);
        && history == old(history) + States(old(docs), old(next), old(next) + 1, op)
        && View(docs) == View(old(docs))[(key, tag) := data.value]
        && Tagless(docs) <= Tagless(old(docs))
    {
      if data.None? || key == "" || tag == "" {
        return Some(Incomplete);
      }
      ghost var was, id := docs, next;
      CreateSteps(key, tag, data.value);
      assert history == old(history) + States(was, id, id + 1, Op.Create(key, tag, data.value)) by {
        CreateEffect(was, id, key, tag, data.value);
      }
      assert Inv(docs) && View(docs) == View(was)[(key, tag) := data.value] && (forall i | i in docs :: i < next) by {
        CreateEffect(was, id, key, tag, data.value);
      }
      assert Tagless(docs) <= Tagless(was) by {
        CreateEffect(was, id, key, tag, data.value);
        CreateTagless(was, id, id + 1, Op.Create(key, tag, data.value), 2);
      }
      error := None;
    }

    /** The datum first, then the pointer to it in the master of the key. */
    method CreateSteps(key: string, tag: string, data: D)
      requires Inv(docs) && forall i | i in docs :: i < next
      modifies this
      ensures
        var inserted := Inserted(old(docs), old(next), tag, data);
        && docs == Pointed(inserted, MasterOf(inserted, key), old(next) + 1, key, tag, old(next))
        && history == old(history) + [inserted, docs]
      ensures next == old(next) + 2
    {
      InsertKeeps(docs, next, tag, data);
      var id := InsertOne(tag, data);
      SetPointer(key, tag, id);
    }

    method Update(key: string, tag: string, data: Option<D>) returns (error: Option<Error>)
      requires Valid() && !Reserved(tag)
      modifies this
      ensures Valid()
      ensures error ==
        if data.None? || key == "" || tag == "" then Some(Incomplete)
        else if MasterOf(old(docs), key).None? then Some(NoMaster)
        else if (key, tag) !in View(old(docs)) then Some(NoTag)
        else None
      ensures Tagless(old(docs)) == {} && data.Some? && key != "" && tag != "" ==>
        Tagless(docs) == {} && error == Missing(View(old(docs)), key, tag)
      ensures error.Some? ==> docs == old(docs) && history == old(history)
      ensures error.None? ==>
        var op := Op.Update(key, tag, data.value);
        && history == old(history) + States(old(docs), old(next), old(next) + 1, op)
        && View(docs) == View(old(docs))[(key, tag) := data.value]
    {
      if data.None? || key == "" || tag == "" {
        return Some(Incomplete);
      }
      PointerMeaning(docs, key, tag);
      MissingMeaning(docs, key, tag);
      UpdateTagless(docs, next, next + 1, Op.Update(key, tag, data.value), 1);
      var master := FindMaster(key);
      if master.None? {
        return Some(NoMaster);
      }
      var fields := docs[master.value].fields;
      if tag !in fields || !fields[tag].Ref? {
        return Some(NoTag);
      }
      CrashAtomic(docs, next, next + 1, Op.Update(key, tag, data.value), 1);
      SetData(fields[tag].target, tag, data.value);
      error := None;
    }

    method Read(key: string, tag: string) returns (data: Option<D>, error: Option<Error>)
      requires Valid()
      ensures key != "" && tag != "" ==> data == if (key, tag) in View(docs) then Some(View(docs)[(key, tag)]) else None
      ensures key == "" || tag == "" ==> data == None && error == Some(Incomplete)
      ensures data.Some? <==> error.None?
    {
      if key == "" || tag == "" {
        return None, Some(Incomplete);
      }
      PointerMeaning(docs, key, tag);
      var master := FindMaster(key);
      if master.None? {
        return None, Some(NoMaster);
      }
      var fields := docs[master.value].fields;
      if tag !in fields || !fields[tag].Ref? {
        return None, Some(NoTag);
      }
      return Some(docs[fields[tag].target].fields[tag].data), None;
    }

    /** Deleting under a key without a master succeeds silently; under a master without the tag it is an error. */
    method Delete(key: string, tag: string) returns (error: Option<Error>)
      requires Valid() && !Reserved(tag)
      modifies this
      ensures Valid()
      ensures error ==
        if key == "" || tag == "" then Some(Incomplete)
        else if MasterOf(old(docs), key).Some? && (key, tag) !in View(old(docs)) then Some(NoTag)
        else None
      ensures Tagless(old(docs)) == {} && key != "" && tag != "" ==>
        Tagless(docs) == {} &&
        error == match Missing(View(old(docs)), key, tag) case Some(NoTag) => Some(NoTag) case _ => None
      ensures key != "" && tag != "" ==>
        var op := Op.Delete(key, tag);
        && history == old(history) + States(old(docs), old(next), old(next) + 1, op)
        && View(docs) == View(old(docs)) - {(key, tag)}
      ensures key == "" || tag == "" ==> docs == old(docs) && history == old(history)
    {
      if key == "" || tag == "" {
        return Some(Incomplete);
      }
      DeleteEffect(docs, next, key, tag);
      MissingMeaning(docs, key, tag);
      var master := FindMaster(key);
      if master.None? {
        return None;
      }
      ghost var was, states := docs, States(docs, next, next + 1, Op.Delete(key, tag));
      var found := DeleteSteps(master.value, tag);
      assert docs == states[|states| - 1] && docs in states;
      assert Inv(docs) && View(docs) == View(was) - {(key, tag)} && docs.Keys <= was.Keys;
      error := if found then None else Some(NoTag);
    }

    /** The steps on the master of the key: unset the tag, delete the datum, delete a master that had no other tag. */
    method DeleteSteps(m: ObjectId, tag: string) returns (found: bool)
      requires m in docs
      modifies this`docs, this`history
      ensures found <==> tag in old(docs)[m].fields && old(docs)[m].fields[tag].Ref?
      ensures
        var unpointed := Unpointed(old(docs), m, tag);
        if !found then docs == unpointed && history == old(history) + [unpointed]
        else
          var dropped := unpointed - {old(docs)[m].fields[tag].target};
          if |old(docs)[m].fields| == 1
          then docs == dropped - {m} && history == old(history) + [unpointed, dropped, dropped - {m}]
          else docs == dropped && history == old(history) + [unpointed, dropped]
    {
      var before := UnsetTag(m, tag);
      if tag !in before.fields || !before.fields[tag].Ref? {
        return false;
      }
      DeleteOne(before.fields[tag].target);
      if |before.fields| + 2 == 3 {
        DeleteOne(m);
      }
      found := true;
    }

    /** All data with a tag, by key. */
    method ReadAll(tag: string) returns (result: map<string, D>, error: Option<Error>)
      requires Valid()
      ensures tag != "" ==> forall key :: key in result <==> (key, tag) in View(docs)
      ensures tag != "" ==> forall key | key in result :: result[key] == View(docs)[(key, tag)]
      ensures tag != "" ==> (error.Some? <==> forall key :: (key, tag) !in View(docs))
    {
      result := map[];
      if tag == "" {
        return map[], Some(Incomplete);
      }
      ghost var table := View(docs);
      TagColumn(docs, tag);
      var todo := set m | m in docs && docs[m].key.Some?;
      while todo != {}
        invariant forall m | m in todo :: m in docs && docs[m].key.Some?
        invariant forall key | key in result :: (key, tag) in table && result[key] == table[(key, tag)]
        invariant forall m | m in docs && docs[m].key.Some? && m !in todo && tag in docs[m].fields ::
          docs[m].key.value in result
      {
        var m :| m in todo;
        todo := todo - {m};
        if tag in docs[m].fields && docs[m].fields[tag].Ref? {
          var p := docs[m].fields[tag].target;
          result := result[docs[m].key.value := docs[p].fields[tag].data];
        }
      }
      assert forall key | (key, tag) in table :: key in result;
      error := if result == map[] then Some(NothingFound) else None;
    }
  }

  lemma TagColumn<D(!new)>(docs: Docs<D>, tag: string)
    requires Inv(docs)
    ensures forall m | m in docs && docs[m].key.Some? && tag in docs[m].fields ::
      && docs[m].fields[tag].Ref? && docs[m].fields[tag].target in docs
      && (docs[m].key.value, tag) in View(docs)
      && tag in docs[docs[m].fields[tag].target].fields
      && docs[docs[m].fields[tag].target].fields[tag] == Blob(View(docs)[(docs[m].key.value, tag)])
    ensures forall key | (key, tag) in View(docs) ::
      exists m :: m in docs && docs[m].key == Some(key) && tag in docs[m].fields
  {
    forall m | m in docs && docs[m].key.Some? && tag in docs[m].fields
      ensures Pointer(docs, docs[m].key.value, tag) == Some(docs[m].fields[tag].target)
    {
      assert IsMaster(docs, m, docs[m].key.value);
    }
    forall key { PointerMeaning(docs, key, tag); }
  }

  lemma InsertedMaster<D(!new)>(docs: Docs<D>, id: ObjectId, tag: string, data: D, key: string)
    requires Inv(docs) && id !in docs
    ensures MasterOf(Inserted(docs, id, tag, data), key) == MasterOf(docs, key)
  {
    var docs' := Inserted(docs, id, tag, data);
    InsertKeeps(docs, id, tag, data);
    assert forall m :: IsMaster(docs', m, key) <==> IsMaster(docs, m, key);
  }

  lemma DeleteShrinks<D(!new)>(docs: Docs<D>, next: ObjectId, key: string, tag: string)
    ensures forall s | s in States(docs, next, next + 1, Op.Delete(key, tag)) :: s.Keys <= docs.Keys
  {
  }

  /** Where every master has a tag, what the code finds missing is what the table lacks. */
  lemma MissingMeaning<D(!new)>(docs: Docs<D>, key: string, tag: string)
    requires Inv(docs)
    ensures Tagless(docs) == {} ==>
      Missing(View(docs), key, tag) == (if MasterOf(docs, key).None? then Some(NoMaster)
                                        else if (key, tag) !in View(docs) then Some(NoTag) else None)
  {
    PointerMeaning(docs, key, tag);
    if Tagless(docs) == {} {
      MasterInTable(docs, key);
    }
  }

  /** The database steps of Delete, seen from the method. */
  lemma DeleteEffect<D(!new)>(docs: Docs<D>, next: ObjectId, key: string, tag: string)
    requires Inv(docs)
    ensures Pointer(docs, key, tag).Some? <==> (key, tag) in View(docs)
    ensures MasterOf(docs, key).None? ==>
      View(docs) == View(docs) - {(key, tag)} && States(docs, next, next + 1, Op.Delete(key, tag)) == []
    ensures forall s | s in States(docs, next, next + 1, Op.Delete(key, tag)) ::
      Inv(s) && View(s) == View(docs) - {(key, tag)} && s.Keys <= docs.Keys
    ensures
      var states := States(docs, next, next + 1, Op.Delete(key, tag));
      states != [] ==> Tagless(states[|states| - 1]) <= Tagless(docs)
  {
    if MasterOf(docs, key).Some? {
      DeleteTagless(docs, next, next + 1, Op.Delete(key, tag), |States(docs, next, next + 1, Op.Delete(key, tag))|);
    }
    DeleteKeeps(docs, next, next + 1, Op.Delete(key, tag));
    DeleteShrinks(docs, next, key, tag);
    PointerMeaning(docs, key, tag);
    if MasterOf(docs, key).None? {
      assert (key, tag) !in View(docs);
    }
  }

  /** The two database steps of Create, seen from the method. */
  lemma CreateEffect<D(!new)>(docs: Docs<D>, next: ObjectId, key: string, tag: string, data: D)
    requires Inv(docs) && forall i | i in docs :: i < next
    ensures
      var inserted := Inserted(docs, next, tag, data);
      var created := Pointed(inserted, MasterOf(inserted, key), next + 1, key, tag, next);
      && Inv(inserted) && (forall i | i in inserted :: i < next + 1)
      && States(docs, next, next + 1, Op.Create(key, tag, data)) == [inserted, created]
      && Inv(created) && View(created) == View(docs)[(key, tag) := data] && (forall i | i in created :: i < next + 2)
  {
    InsertKeeps(docs, next, tag, data);
    PointKeeps(docs, next, next + 1, key, tag, data);
    InsertedMaster(docs, next, tag, data, key);
  }
}
