/**
 * The two-level document store of db/mongo.go: a master document for each key points, tag by tag, to documents that
 * hold the data. Every operation is a short sequence of separately atomic database steps.
 */
module DocumentStore {
  import opened Wrappers

  type ObjectId = nat

  datatype Field<+D> = Ref(target: ObjectId) | Blob(data: D)

  /** A master document has a key; `fields` are the elements other than _id and key. */
  datatype Document<+D> = Document(key: Option<string>, fields: map<string, Field<D>>)

  type Docs<+D> = map<ObjectId, Document<D>>

  /** What the store stands for: one datum for each key and tag. */
  type Table<+D> = map<(string, string), D>

  datatype Op<+D> =
    | Create(key: string, tag: string, data: D)
    | Update(key: string, tag: string, data: D)
    | Delete(key: string, tag: string)

  datatype Error = Incomplete | NoMaster | NoTag | NoDocument | NothingFound

  // ---------------------------------------------------------------- invariant and meaning

  ghost predicate IsMaster<D>(docs: Docs<D>, m: ObjectId, key: string) {
    m in docs && docs[m].key == Some(key)
  }

  ghost predicate Points<D>(docs: Docs<D>, m: ObjectId, tag: string, p: ObjectId) {
    m in docs && docs[m].key.Some? && tag in docs[m].fields && docs[m].fields[tag] == Ref(p)
  }

  /**
   * One master per key, no dangling pointer, no shared datum. Unreferenced data and masters without tags may be left.
   */
  ghost predicate Inv<D(!new)>(docs: Docs<D>) {
    && (forall m, n, key | IsMaster(docs, m, key) && IsMaster(docs, n, key) :: m == n)
    && (forall i, tag | i in docs && tag in docs[i].fields :: docs[i].key.Some? <==> docs[i].fields[tag].Ref?)
    && (forall m, tag, p | Points(docs, m, tag, p) :: p in docs && docs[p].key.None? && tag in docs[p].fields)
    && (forall m, tag, n, tag', p | Points(docs, m, tag, p) && Points(docs, n, tag', p) :: m == n && tag == tag')
  }

  ghost predicate Holds<D(!new)>(docs: Docs<D>, key: string, tag: string, data: D) {
    exists m, p :: IsMaster(docs, m, key) && Points(docs, m, tag, p) && p in docs && tag in docs[p].fields
      && docs[p].fields[tag] == Blob(data)
  }

  ghost function Pairs<D>(docs: Docs<D>): set<(string, string)> {
    set m, tag | m in docs && docs[m].key.Some? && tag in docs[m].fields :: (docs[m].key.value, tag)
  }

  lemma PairsHold<D(!new)>(docs: Docs<D>)
    requires Inv(docs)
    ensures forall kt | kt in Pairs(docs) :: exists data :: Holds(docs, kt.0, kt.1, data)
  {
    forall kt | kt in Pairs(docs) ensures exists data :: Holds(docs, kt.0, kt.1, data) {
      var m :| IsMaster(docs, m, kt.0) && kt.1 in docs[m].fields;
      var p := docs[m].fields[kt.1].target;
      assert Points(docs, m, kt.1, p);
      assert Holds(docs, kt.0, kt.1, docs[p].fields[kt.1].data);
    }
  }

  ghost function View<D(!new)>(docs: Docs<D>): Table<D>
    requires Inv(docs)
  {
    PairsHold(docs);
    map kt | kt in Pairs(docs) :: var data :| Holds(docs, kt.0, kt.1, data); data
  }

  lemma ViewMeaning<D(!new)>(docs: Docs<D>)
    requires Inv(docs)
    ensures forall key, tag, data :: (key, tag) in View(docs) && View(docs)[(key, tag)] == data <==>
      Holds(docs, key, tag, data)
  {
    PairsHold(docs);
    forall key, tag, data | Holds(docs, key, tag, data) ensures (key, tag) in Pairs(docs) {
    }
  }

  function Apply<D>(t: Table<D>, op: Op<D>): Table<D> {
    match op
    case Create(key, tag, data) => t[(key, tag) := data]
    case Update(key, tag, data) => if (key, tag) in t then t[(key, tag) := data] else t
    case Delete(key, tag) => t - {(key, tag)}
  }

  // ---------------------------------------------------------------- database steps

  ghost function MasterOf<D(!new)>(docs: Docs<D>, key: string): Option<ObjectId> {
    if m :| IsMaster(docs, m, key) then Some(m) else None
  }

  /** InsertOne of a data document. */
  function Inserted<D>(docs: Docs<D>, id: ObjectId, tag: string, data: D): Docs<D> {
    docs[id := Document(None, map[tag := Blob(data)])]
  }

  /** FindOneAndUpdate with $set on the master of a key; without a master it is created under the identity `spare`. */
  function Pointed<D>(docs: Docs<D>, master: Option<ObjectId>, spare: ObjectId, key: string, tag: string,
                      id: ObjectId): Docs<D>
    requires master.Some? ==> master.value in docs
  {
    match master
    case Some(m) => docs[m := docs[m].(fields := docs[m].fields[tag := Ref(id)])]
    case None => docs[spare := Document(Some(key), map[tag := Ref(id)])]
  }

  /** FindOneAndUpdate with $set on a data document. */
  function Replaced<D>(docs: Docs<D>, p: ObjectId, tag: string, data: D): Docs<D>
    requires p in docs
  {
    docs[p := docs[p].(fields := docs[p].fields[tag := Blob(data)])]
  }

  /** FindOneAndUpdate with $unset on a master. */
  function Unpointed<D>(docs: Docs<D>, m: ObjectId, tag: string): Docs<D>
    requires m in docs
  {
    docs[m := docs[m].(fields := docs[m].fields - {tag})]
  }

  /** The tag's pointer in the master of the key. */
  ghost function Pointer<D(!new)>(docs: Docs<D>, key: string, tag: string): Option<ObjectId> {
    var master := MasterOf(docs, key);
    if master.Some? && tag in docs[master.value].fields && docs[master.value].fields[tag].Ref?
    then Some(docs[master.value].fields[tag].target) else None
  }

  /** The states an operation passes through, one for each database step; the two identities are new to the database. */
  ghost function States<D(!new)>(docs: Docs<D>, id: ObjectId, spare: ObjectId, op: Op<D>): (states: seq<Docs<D>>) {
    var master, pointer := MasterOf(docs, op.key), Pointer(docs, op.key, op.tag);
    match op
    case Create(key, tag, data) =>
      var inserted := Inserted(docs, id, tag, data);
      [inserted, Pointed(inserted, master, spare, key, tag, id)]
    case Update(key, tag, data) =>
      if pointer.Some? && pointer.value in docs then [Replaced(docs, pointer.value, tag, data)] else []
    case Delete(key, tag) =>
      if master.None? then []
      else
        var unpointed := Unpointed(docs, master.value, tag);
        if pointer.None? then [unpointed]
        else
          var dropped := unpointed - {pointer.value};
          if |docs[master.value].fields| == 1 then [unpointed, dropped, dropped - {master.value}]
          else [unpointed, dropped]
  }

  /** The state after the first n steps. */
  ghost function After<D(!new)>(docs: Docs<D>, id: ObjectId, spare: ObjectId, op: Op<D>, n: nat): Docs<D> {
    var states := States(docs, id, spare, op);
    if n == 0 || states == [] then docs else if n <= |states| then states[n - 1] else states[|states| - 1]
  }

  // ---------------------------------------------------------------- crash atomicity

  ghost predicate Means<D(!new)>(docs: Docs<D>, t: Table<D>) {
    Inv(docs) && View(docs) == t
  }

  lemma MeansByHolds<D(!new)>(docs: Docs<D>, t: Table<D>)
    requires Inv(docs)
    requires forall key, tag, data :: Holds(docs, key, tag, data) <==> (key, tag) in t && t[(key, tag)] == data
    ensures Means(docs, t)
  {
    ViewMeaning(docs);
    var v := View(docs);
    forall kt ensures kt in v <==> kt in t {
      if kt in v {
        assert Holds(docs, kt.0, kt.1, v[kt]);
      }
      if kt in t {
        assert Holds(docs, kt.0, kt.1, t[kt]);
      }
    }
    forall kt | kt in v ensures v[kt] == t[kt] {
      assert Holds(docs, kt.0, kt.1, v[kt]);
    }
  }

  lemma MasterOfMeaning<D(!new)>(docs: Docs<D>, key: string)
    ensures MasterOf(docs, key).Some? ==> IsMaster(docs, MasterOf(docs, key).value, key)
    ensures MasterOf(docs, key).None? ==> forall m :: !IsMaster(docs, m, key)
  {
  }

  lemma InsertKeeps<D(!new)>(docs: Docs<D>, id: ObjectId, tag: string, data: D)
    requires Inv(docs) && id !in docs
    ensures Means(Inserted(docs, id, tag, data), View(docs))
  {
    var docs' := Inserted(docs, id, tag, data);
    assert forall m, tag', p :: Points(docs', m, tag', p) <==> Points(docs, m, tag', p);
    assert forall m, key :: IsMaster(docs', m, key) <==> IsMaster(docs, m, key);
    forall key, tag', data' ensures Holds(docs', key, tag', data') <==> Holds(docs, key, tag', data') {
    }
    ViewMeaning(docs);
    MeansByHolds(docs', View(docs));
  }

  lemma PointShape<D(!new)>(docs: Docs<D>, id: ObjectId, spare: ObjectId, key: string, tag: string, data: D)
    requires Inv(docs) && id !in docs && spare !in docs && id != spare
    ensures
      var master := MasterOf(docs, key);
      var docs' := Pointed(Inserted(docs, id, tag, data), master, spare, key, tag, id);
      var m := if master.Some? then master.value else spare;
      && (forall n, k :: IsMaster(docs', n, k) <==> IsMaster(docs, n, k) || (n == m && k == key))
      && (forall n, t, p :: Points(docs', n, t, p) <==> if n == m && t == tag then p == id else Points(docs, n, t, p))
      && (forall p | p in docs && docs[p].key.None? :: p in docs' && docs'[p] == docs[p])
      && docs'[id] == Document(None, map[tag := Blob(data)])
  {
    MasterOfMeaning(docs, key);
  }

  lemma PointInv<D(!new)>(docs: Docs<D>, id: ObjectId, spare: ObjectId, key: string, tag: string, data: D)
    requires Inv(docs) && id !in docs && spare !in docs && id != spare
    ensures Inv(Pointed(Inserted(docs, id, tag, data), MasterOf(docs, key), spare, key, tag, id))
  {
    MasterOfMeaning(docs, key);
    PointShape(docs, id, spare, key, tag, data);
  }

  /** The pointer step of Create is where the new datum appears; a datum it replaces loses its only reference. */
  lemma PointKeeps<D(!new)>(docs: Docs<D>, id: ObjectId, spare: ObjectId, key: string, tag: string, data: D)
    requires Inv(docs) && id !in docs && spare !in docs && id != spare
    ensures
      var inserted := Inserted(docs, id, tag, data);
      Means(Pointed(inserted, MasterOf(docs, key), spare, key, tag, id), View(docs)[(key, tag) := data])
  {
    var docs' := Pointed(Inserted(docs, id, tag, data), MasterOf(docs, key), spare, key, tag, id);
    MasterOfMeaning(docs, key);
    PointShape(docs, id, spare, key, tag, data);
    PointInv(docs, id, spare, key, tag, data);
    var m := if MasterOf(docs, key).Some? then MasterOf(docs, key).value else spare;
    var table := View(docs)[(key, tag) := data];
    ViewMeaning(docs);
    forall k, t, d ensures Holds(docs', k, t, d) <==> (k, t) in table && table[(k, t)] == d {
      if (k, t) == (key, tag) {
        assert IsMaster(docs', m, key) && Points(docs', m, tag, id);
      } else {
        assert Holds(docs', k, t, d) <==> Holds(docs, k, t, d);
      }
    }
    MeansByHolds(docs', table);
  }

  lemma ReplaceKeeps<D(!new)>(docs: Docs<D>, key: string, tag: string, data: D)
    requires Inv(docs) && Pointer(docs, key, tag).Some?
    ensures Pointer(docs, key, tag).value in docs && (key, tag) in View(docs)
    ensures Means(Replaced(docs, Pointer(docs, key, tag).value, tag, data), View(docs)[(key, tag) := data])
  {
    ViewMeaning(docs);
    var m, p := MasterOf(docs, key).value, Pointer(docs, key, tag).value;
    assert IsMaster(docs, m, key) && Points(docs, m, tag, p);
    assert Holds(docs, key, tag, docs[p].fields[tag].data);
    var docs' := Replaced(docs, p, tag, data);
    assert forall n, k :: IsMaster(docs', n, k) <==> IsMaster(docs, n, k);
    assert forall n, t, q :: Points(docs', n, t, q) <==> Points(docs, n, t, q);
    assert Inv(docs');
    var table := View(docs)[(key, tag) := data];
    ViewMeaning(docs);
    forall k, t, d ensures Holds(docs', k, t, d) <==> (k, t) in table && table[(k, t)] == d {
      if (k, t) != (key, tag) {
        assert Holds(docs', k, t, d) <==> Holds(docs, k, t, d);
      }
    }
    MeansByHolds(docs', table);
  }

  /** The $unset step is where the datum disappears. */
  lemma UnpointKeeps<D(!new)>(docs: Docs<D>, key: string, tag: string)
    requires Inv(docs) && MasterOf(docs, key).Some?
    ensures Means(Unpointed(docs, MasterOf(docs, key).value, tag), View(docs) - {(key, tag)})
  {
    var m := MasterOf(docs, key).value;
    assert IsMaster(docs, m, key);
    var docs' := Unpointed(docs, m, tag);
    assert forall n, k :: IsMaster(docs', n, k) <==> IsMaster(docs, n, k);
    assert forall n, t, q :: Points(docs', n, t, q) <==> Points(docs, n, t, q) && !(n == m && t == tag);
    assert Inv(docs');
    var table := View(docs) - {(key, tag)};
    ViewMeaning(docs);
    forall k, t, d ensures Holds(docs', k, t, d) <==> (k, t) in table && table[(k, t)] == d {
      if (k, t) != (key, tag) {
        assert Holds(docs', k, t, d) <==> Holds(docs, k, t, d);
      }
    }
    MeansByHolds(docs', table);
  }

  /** Removing a document nothing points to, or a master without tags, changes nothing. */
  lemma DropKeeps<D(!new)>(docs: Docs<D>, i: ObjectId)
    requires Inv(docs) && i in docs && (docs[i].key.Some? ==> docs[i].fields == map[])
    requires forall m, tag :: !Points(docs, m, tag, i)
    ensures Means(docs - {i}, View(docs))
  {
    var docs' := docs - {i};
    assert forall n, k :: IsMaster(docs', n, k) <==> IsMaster(docs, n, k) && n != i;
    assert forall n, t, q :: Points(docs', n, t, q) <==> Points(docs, n, t, q);
    forall k, t, d ensures Holds(docs', k, t, d) <==> Holds(docs, k, t, d) {
    }
    ViewMeaning(docs);
    MeansByHolds(docs', View(docs));
  }

  /** After the $unset, nothing points to the datum, and it can go; then the master, if it had no other tag. */
  lemma DropsKeep<D(!new)>(docs: Docs<D>, key: string, tag: string)
    requires Inv(docs) && Pointer(docs, key, tag).Some?
    ensures
      var m, p := MasterOf(docs, key).value, Pointer(docs, key, tag).value;
      var dropped := Unpointed(docs, m, tag) - {p};
      && Means(dropped, View(docs) - {(key, tag)})
      && (|docs[m].fields| == 1 ==> Means(dropped - {m}, View(docs) - {(key, tag)}))
  {
    var m, p := MasterOf(docs, key).value, Pointer(docs, key, tag).value;
    var unpointed := Unpointed(docs, m, tag);
    assert IsMaster(docs, m, key) && Points(docs, m, tag, p);
    UnpointKeeps(docs, key, tag);
    assert forall n, t :: Points(unpointed, n, t, p) ==> Points(docs, n, t, p);
    DropKeeps(unpointed, p);
    var dropped := unpointed - {p};
    if |docs[m].fields| == 1 {
      assert |dropped[m].fields| == 0;
      assert forall n, t :: Points(dropped, n, t, m) ==> Points(docs, n, t, m);
      DropKeeps(dropped, m);
    }
  }

  lemma DeleteKeeps<D(!new)>(docs: Docs<D>, id: ObjectId, spare: ObjectId, op: Op<D>)
    requires Inv(docs) && op.Delete?
    ensures forall s | s in States(docs, id, spare, op) :: Means(s, Apply(View(docs), op))
  {
    if MasterOf(docs, op.key).Some? {
      UnpointKeeps(docs, op.key, op.tag);
      if Pointer(docs, op.key, op.tag).Some? {
        DropsKeep(docs, op.key, op.tag);
      }
    }
  }

  /** The pair is stored exactly when the master of its key points from its tag. */
  lemma PointerMeaning<D(!new)>(docs: Docs<D>, key: string, tag: string)
    requires Inv(docs)
    ensures Pointer(docs, key, tag).Some? <==> (key, tag) in View(docs)
    ensures Pointer(docs, key, tag).Some? ==>
      var p := Pointer(docs, key, tag).value;
      p in docs && tag in docs[p].fields && docs[p].fields[tag] == Blob(View(docs)[(key, tag)])
  {
    ViewMeaning(docs);
    if Pointer(docs, key, tag).Some? {
      var m, p := MasterOf(docs, key).value, Pointer(docs, key, tag).value;
      assert IsMaster(docs, m, key) && Points(docs, m, tag, p);
      assert Holds(docs, key, tag, docs[p].fields[tag].data);
    }
    if (key, tag) in View(docs) {
      assert Holds(docs, key, tag, View(docs)[(key, tag)]);
    }
  }

  /**
   * Crash atomicity: stopped after any number of its database steps, an operation leaves a store that stands for the
   * table before it or the table after it; run to its end, for the table after it.
   */
  lemma CrashAtomic<D(!new)>(docs: Docs<D>, id: ObjectId, spare: ObjectId, op: Op<D>, n: nat)
    requires Inv(docs) && id !in docs && spare !in docs && id != spare
    ensures
      var s := After(docs, id, spare, op, n);
      && Inv(s)
      && (View(s) == View(docs) || View(s) == Apply(View(docs), op))
      && (n >= |States(docs, id, spare, op)| ==> View(s) == Apply(View(docs), op))
  {
    PointerMeaning(docs, op.key, op.tag);
    match op
    case Create(key, tag, data) =>
      InsertKeeps(docs, id, tag, data);
      PointKeeps(docs, id, spare, key, tag, data);
    case Update(key, tag, data) =>
      if Pointer(docs, key, tag).Some? {
        ReplaceKeeps(docs, key, tag, data);
      }
    case Delete(key, tag) =>
      DeleteKeeps(docs, id, spare, op);
      assert States(docs, id, spare, op) != [] && n > 0 ==>
        After(docs, id, spare, op, n) in States(docs, id, spare, op);
  }

  lemma EveryStateAtomic<D(!new)>(docs: Docs<D>, id: ObjectId, spare: ObjectId, op: Op<D>)
    requires Inv(docs) && id !in docs && spare !in docs && id != spare
    ensures forall s | s in States(docs, id, spare, op) ::
      Inv(s) && (View(s) == View(docs) || View(s) == Apply(View(docs), op))
  {
    var states := States(docs, id, spare, op);
    forall k | 0 <= k < |states|
      ensures Inv(states[k]) && (View(states[k]) == View(docs) || View(states[k]) == Apply(View(docs), op))
    {
      CrashAtomic(docs, id, spare, op, k + 1);
      assert After(docs, id, spare, op, k + 1) == states[k];
    }
  }

  // ---------------------------------------------------------------- what is left behind

  ghost function DataDocs<D>(docs: Docs<D>): set<ObjectId> {
    set i | i in docs && docs[i].key.None?
  }

  /** Data documents no master points to. */
  ghost function Orphans<D(!new)>(docs: Docs<D>): set<ObjectId> {
    set i | i in docs && docs[i].key.None? && forall m, tag :: !Points(docs, m, tag, i)
  }

  ghost function Targets<D(!new)>(docs: Docs<D>, pairs: set<(string, string)>): set<ObjectId> {
    set kt | kt in pairs && Pointer(docs, kt.0, kt.1).Some? :: Pointer(docs, kt.0, kt.1).value
  }

  /** No two pairs share a data document. */
  lemma PointerInjective<D(!new)>(docs: Docs<D>, kt: (string, string), lu: (string, string))
    requires Inv(docs) && Pointer(docs, kt.0, kt.1).Some? && Pointer(docs, kt.0, kt.1) == Pointer(docs, lu.0, lu.1)
    ensures kt == lu
  {
    var p := Pointer(docs, kt.0, kt.1).value;
    var m, n := MasterOf(docs, kt.0).value, MasterOf(docs, lu.0).value;
    assert IsMaster(docs, m, kt.0) && IsMaster(docs, n, lu.0);
    assert Points(docs, m, kt.1, p) && Points(docs, n, lu.1, p);
  }

  lemma {:induction false} TargetsCount<D(!new)>(docs: Docs<D>, pairs: set<(string, string)>)
    requires Inv(docs) && forall kt | kt in pairs :: Pointer(docs, kt.0, kt.1).Some?
    ensures |Targets(docs, pairs)| == |pairs|
  {
    if pairs != {} {
      var kt :| kt in pairs;
      var rest := pairs - {kt};
      TargetsCount(docs, rest);
      var p := Pointer(docs, kt.0, kt.1).value;
      forall lu | lu in rest ensures Pointer(docs, lu.0, lu.1) != Some(p) {
        if Pointer(docs, lu.0, lu.1) == Some(p) {
          PointerInjective(docs, kt, lu);
        }
      }
      assert Targets(docs, pairs) == Targets(docs, rest) + {p};
    }
  }

  /** A data document is pointed to exactly when some pair's pointer is its identity. */
  lemma ReferencedExactly<D(!new)>(docs: Docs<D>, i: ObjectId)
    requires Inv(docs)
    ensures i in DataDocs(docs) && i !in Orphans(docs) <==> exists kt: (string, string) ::
      Pointer(docs, kt.0, kt.1) == Some(i)
  {
    if i in DataDocs(docs) && i !in Orphans(docs) {
      var m, tag :| Points(docs, m, tag, i);
      var kt := (docs[m].key.value, tag);
      assert IsMaster(docs, m, kt.0);
      assert Pointer(docs, kt.0, kt.1) == Some(i);
    }
    forall kt: (string, string) | Pointer(docs, kt.0, kt.1) == Some(i)
      ensures i in DataDocs(docs) && i !in Orphans(docs)
    {
      assert Points(docs, MasterOf(docs, kt.0).value, kt.1, i);
    }
  }

  /** Every data document is either the datum of one stored pair or an orphan. */
  lemma Census<D(!new)>(docs: Docs<D>)
    requires Inv(docs)
    ensures |DataDocs(docs)| == |View(docs)| + |Orphans(docs)|
  {
    var pairs := View(docs).Keys;
    forall kt: (string, string) ensures kt in pairs <==> Pointer(docs, kt.0, kt.1).Some? {
      PointerMeaning(docs, kt.0, kt.1);
    }
    CensusOf(docs, pairs);
  }

  lemma CensusOf<D(!new)>(docs: Docs<D>, pairs: set<(string, string)>)
    requires Inv(docs)
    requires forall kt: (string, string) :: kt in pairs <==> Pointer(docs, kt.0, kt.1).Some?
    ensures |DataDocs(docs)| == |pairs| + |Orphans(docs)|
  {
    var targets := Targets(docs, pairs);
    TargetsCount(docs, pairs);
    forall i ensures i in targets <==> i in DataDocs(docs) && i !in Orphans(docs) {
      ReferencedExactly(docs, i);
    }
    assert DataDocs(docs) == targets + Orphans(docs);
  }

  /** A complete Create orphans the datum it replaces; no other complete operation orphans anything. */
  ghost function Overwritten<D(!new)>(docs: Docs<D>, op: Op<D>): set<ObjectId> {
    if op.Create? && Pointer(docs, op.key, op.tag).Some? then {Pointer(docs, op.key, op.tag).value} else {}
  }

  lemma CreateOrphans<D(!new)>(docs: Docs<D>, id: ObjectId, spare: ObjectId, op: Op<D>)
    requires Inv(docs) && id !in docs && spare !in docs && id != spare && op.Create?
    ensures Orphans(States(docs, id, spare, op)[0]) == Orphans(docs) + {id}
    ensures Orphans(States(docs, id, spare, op)[1]) == Orphans(docs) + Overwritten(docs, op)
  {
    var inserted := Inserted(docs, id, op.tag, op.data);
    assert forall m, tag, p :: Points(inserted, m, tag, p) <==> Points(docs, m, tag, p);
    MasterOfMeaning(docs, op.key);
    PointShape(docs, id, spare, op.key, op.tag, op.data);
    var docs' := States(docs, id, spare, op)[1];
    var master := MasterOf(docs, op.key);
    var m := if master.Some? then master.value else spare;
    forall i ensures i in Orphans(docs') <==> i in Orphans(docs) || i in Overwritten(docs, op) {
      if i in Overwritten(docs, op) {
        assert Points(docs, m, op.tag, i);
      }
      if i == id {
        assert Points(docs', m, op.tag, id);
      }
      if i in docs && docs[i].key.None? && i !in Orphans(docs) && i !in Overwritten(docs, op) {
        var n, tag :| Points(docs, n, tag, i);
        assert Points(docs', n, tag, i);
      }
      if i in Orphans(docs) {
        assert forall n, tag :: !Points(docs', n, tag, i);
      }
    }
  }

  lemma SameOrphans<D(!new)>(docs: Docs<D>, docs': Docs<D>, gained: set<ObjectId>)
    requires forall i | i in docs' && docs'[i].key.None? :: i in docs && docs[i].key.None?
    requires forall i | i in docs && docs[i].key.None? && i !in docs' :: exists m, tag :: Points(docs, m, tag, i)
    requires forall i | i in docs && docs[i].key.None? && i in docs' :: docs'[i].key.None?
    requires gained <= DataDocs(docs')
    requires forall m, tag, p | p in docs' :: Points(docs', m, tag, p) <==> Points(docs, m, tag, p) && p !in gained
    ensures Orphans(docs') == Orphans(docs) + gained
  {
  }

  lemma UnpointedPoints<D(!new)>(docs: Docs<D>, m: ObjectId, tag: string)
    requires m in docs
    ensures forall n: ObjectId, t, q: ObjectId ::
      Points(Unpointed(docs, m, tag), n, t, q) <==> Points(docs, n, t, q) && !(n == m && t == tag)
  {
  }

  lemma DroppedPoints<D(!new)>(docs: Docs<D>, i: ObjectId)
    requires i in docs && (docs[i].key.Some? ==> docs[i].fields == map[])
    ensures forall n: ObjectId, t, q: ObjectId :: Points(docs - {i}, n, t, q) <==> Points(docs, n, t, q)
  {
  }

  lemma DeletePoints<D(!new)>(docs: Docs<D>, id: ObjectId, spare: ObjectId, op: Op<D>, k: nat)
    requires Inv(docs) && op.Delete? && k < |States(docs, id, spare, op)|
    ensures forall n: ObjectId, t, q: ObjectId :: Points(States(docs, id, spare, op)[k], n, t, q) <==>
      Points(docs, n, t, q) && !(Some(n) == MasterOf(docs, op.key) && t == op.tag)
  {
    var m, pointer := MasterOf(docs, op.key).value, Pointer(docs, op.key, op.tag);
    var unpointed := Unpointed(docs, m, op.tag);
    UnpointedPoints(docs, m, op.tag);
    if k >= 1 {
      assert Points(docs, m, op.tag, pointer.value);
      DroppedPoints(unpointed, pointer.value);
    }
    if k == 2 {
      assert |unpointed[m].fields| == 0;
      DroppedPoints(unpointed - {pointer.value}, m);
    }
  }

  lemma DeleteOrphans<D(!new)>(docs: Docs<D>, id: ObjectId, spare: ObjectId, op: Op<D>, k: nat)
    requires Inv(docs) && op.Delete? && k < |States(docs, id, spare, op)|
    ensures Orphans(States(docs, id, spare, op)[k]) ==
      if k == 0 && Pointer(docs, op.key, op.tag).Some?
      then Orphans(docs) + {Pointer(docs, op.key, op.tag).value} else Orphans(docs)
  {
    var m, pointer := MasterOf(docs, op.key).value, Pointer(docs, op.key, op.tag);
    var docs' := States(docs, id, spare, op)[k];
    DeletePoints(docs, id, spare, op, k);
    if pointer.Some? {
      assert Points(docs, m, op.tag, pointer.value);
      SameOrphans(docs, docs', if k == 0 then {pointer.value} else {});
    } else {
      SameOrphans(docs, docs', {});
    }
  }

  lemma UpdateOrphans<D(!new)>(docs: Docs<D>, id: ObjectId, spare: ObjectId, op: Op<D>, n: nat)
    requires Inv(docs) && op.Update?
    ensures Orphans(After(docs, id, spare, op, n)) == Orphans(docs)
  {
    if Pointer(docs, op.key, op.tag).Some? {
      PointerTarget(docs, op.key, op.tag);
      SameOrphans(docs, Replaced(docs, Pointer(docs, op.key, op.tag).value, op.tag, op.data), {});
    }
  }

  lemma OrphansAfter<D(!new)>(docs: Docs<D>, id: ObjectId, spare: ObjectId, op: Op<D>, n: nat)
    requires Inv(docs) && id !in docs && spare !in docs && id != spare
    ensures n >= |States(docs, id, spare, op)| ==>
      Orphans(After(docs, id, spare, op, n)) == Orphans(docs) + Overwritten(docs, op)
    ensures exists i: ObjectId :: Orphans(After(docs, id, spare, op, n)) <= Orphans(docs) + {i}
  {
    var states, s := States(docs, id, spare, op), After(docs, id, spare, op, n);
    if n == 0 || states == [] {
      assert Orphans(s) <= Orphans(docs) + {id};
    } else if op.Create? {
      CreateOrphans(docs, id, spare, op);
      var prior := if Overwritten(docs, op) == {} then id else Pointer(docs, op.key, op.tag).value;
      assert Orphans(s) <= Orphans(docs) + {if n == 1 then id else prior};
    } else if op.Update? {
      UpdateOrphans(docs, id, spare, op, n);
      assert Orphans(s) <= Orphans(docs) + {id};
    } else {
      DeleteOrphans(docs, id, spare, op, if n <= |states| then n - 1 else |states| - 1);
      var prior := if Pointer(docs, op.key, op.tag).None? then id else Pointer(docs, op.key, op.tag).value;
      assert Orphans(s) <= Orphans(docs) + {prior};
    }
  }

  lemma {:induction false} Subset(a: set<ObjectId>, b: set<ObjectId>)
    requires a <= b
    ensures |a| <= |b|
  {
    if a != {} {
      var x :| x in a;
      Subset(a - {x}, b - {x});
    }
  }

  lemma PointerTarget<D(!new)>(docs: Docs<D>, key: string, tag: string)
    requires Inv(docs) && Pointer(docs, key, tag).Some?
    ensures Pointer(docs, key, tag).value in DataDocs(docs) && Pointer(docs, key, tag).value !in Orphans(docs)
  {
    assert Points(docs, MasterOf(docs, key).value, tag, Pointer(docs, key, tag).value);
  }

  /** Masters without tags: what a Delete that was stopped before its last step leaves. */
  ghost function Tagless<D>(docs: Docs<D>): set<ObjectId> {
    set m | m in docs && docs[m].key.Some? && docs[m].fields == map[]
  }

  lemma CreateTagless<D(!new)>(docs: Docs<D>, id: ObjectId, spare: ObjectId, op: Op<D>, n: nat)
    requires Inv(docs) && id !in docs && spare !in docs && id != spare && op.Create?
    ensures Tagless(After(docs, id, spare, op, n)) <= Tagless(docs)
  {
    MasterOfMeaning(docs, op.key);
    forall m | m in Tagless(After(docs, id, spare, op, n)) ensures m in Tagless(docs) {
      var master := MasterOf(docs, op.key);
      assert n >= 2 ==> op.tag in States(docs, id, spare, op)[1][if master.Some? then master.value else spare].fields;
    }
  }

  lemma UpdateTagless<D(!new)>(docs: Docs<D>, id: ObjectId, spare: ObjectId, op: Op<D>, n: nat)
    requires Inv(docs) && op.Update?
    ensures Tagless(After(docs, id, spare, op, n)) == Tagless(docs)
  {
    if Pointer(docs, op.key, op.tag).Some? {
      PointerTarget(docs, op.key, op.tag);
    }
  }

  lemma DeleteTagless<D(!new)>(docs: Docs<D>, id: ObjectId, spare: ObjectId, op: Op<D>, n: nat)
    requires Inv(docs) && op.Delete? && MasterOf(docs, op.key).Some?
    ensures Tagless(After(docs, id, spare, op, n)) <= Tagless(docs) + {MasterOf(docs, op.key).value}
    ensures n >= |States(docs, id, spare, op)| ==> Tagless(After(docs, id, spare, op, n)) <= Tagless(docs)
  {
    MasterOfMeaning(docs, op.key);
    var m, pointer := MasterOf(docs, op.key).value, Pointer(docs, op.key, op.tag);
    var unpointed := Unpointed(docs, m, op.tag);
    assert Tagless(unpointed) <= Tagless(docs) + {m};
    if pointer.None? {
      assert op.tag !in docs[m].fields;
      assert unpointed[m].fields == docs[m].fields;
    } else {
      assert Points(docs, m, op.tag, pointer.value) && pointer.value != m;
      LastTagExactly(docs[m].fields, op.tag);
    }
  }

  /** Unsetting a tag leaves none exactly when it was the only one. */
  lemma LastTagExactly<D>(fields: map<string, Field<D>>, tag: string)
    requires tag in fields
    ensures fields - {tag} == map[] <==> |fields| == 1
  {
    assert |(fields - {tag}).Keys| == |fields.Keys - {tag}| by {
      assert (fields - {tag}).Keys == fields.Keys - {tag};
    }
    assert |fields.Keys| == |fields|;
    if |fields| == 1 {
      assert |(fields - {tag}).Keys| == 0;
    } else {
      assert (fields - {tag}).Keys != {};
    }
  }

  /** A complete operation keeps that every master has a tag; an interrupted one leaves at most one master without. */
  lemma TaglessAfter<D(!new)>(docs: Docs<D>, id: ObjectId, spare: ObjectId, op: Op<D>, n: nat)
    requires Inv(docs) && id !in docs && spare !in docs && id != spare
    ensures n >= |States(docs, id, spare, op)| ==> Tagless(After(docs, id, spare, op, n)) <= Tagless(docs)
    ensures exists m: ObjectId :: Tagless(After(docs, id, spare, op, n)) <= Tagless(docs) + {m}
  {
    match op
    case Create(_, _, _) =>
      CreateTagless(docs, id, spare, op, n);
      assert Tagless(After(docs, id, spare, op, n)) <= Tagless(docs) + {id};
    case Update(_, _, _) =>
      UpdateTagless(docs, id, spare, op, n);
      assert Tagless(After(docs, id, spare, op, n)) <= Tagless(docs) + {id};
    case Delete(key, _) =>
      if MasterOf(docs, key).Some? {
        DeleteTagless(docs, id, spare, op, n);
        assert Tagless(After(docs, id, spare, op, n)) <= Tagless(docs) + {MasterOf(docs, key).value};
      } else {
        assert Tagless(After(docs, id, spare, op, n)) <= Tagless(docs) + {id};
      }
  }

  /** Where every master has a tag, a key has a master exactly when the table has a pair with that key. */
  lemma MasterInTable<D(!new)>(docs: Docs<D>, key: string)
    requires Inv(docs) && Tagless(docs) == {}
    ensures MasterOf(docs, key).Some? <==> exists tag :: (key, tag) in View(docs)
  {
    MasterOfMeaning(docs, key);
    forall tag { PointerMeaning(docs, key, tag); }
    if MasterOf(docs, key).Some? {
      var m := MasterOf(docs, key).value;
      assert m !in Tagless(docs);
      var tag :| tag in docs[m].fields;
      assert Pointer(docs, key, tag).Some?;
    }
  }

  // ---------------------------------------------------------------- runs with crashes

  /** An operation that is stopped after `steps` database steps; many steps mean it completes. */
  datatype Event<+D> = Event(op: Op<D>, steps: nat, id: ObjectId, spare: ObjectId)

  ghost predicate Complete<D(!new)>(docs: Docs<D>, e: Event<D>) {
    e.steps >= |States(docs, e.id, e.spare, e.op)|
  }

  ghost predicate IsRun<D(!new)>(states: seq<Docs<D>>, events: seq<Event<D>>) {
    && |states| == |events| + 1
    && states[0] == map[]
    && forall i | 0 <= i < |events| ::
      && events[i].id !in states[i] && events[i].spare !in states[i] && events[i].id != events[i].spare
      && states[i + 1] == After(states[i], events[i].id, events[i].spare, events[i].op, events[i].steps)
  }

  ghost function Overwrites<D(!new)>(states: seq<Docs<D>>, events: seq<Event<D>>, n: nat): nat
    requires IsRun(states, events) && n <= |events|
  {
    if n == 0 then 0 else Overwrites(states, events, n - 1) + |Overwritten(states[n - 1], events[n - 1].op)|
  }

  ghost function Crashes<D(!new)>(states: seq<Docs<D>>, events: seq<Event<D>>, n: nat): nat
    requires IsRun(states, events) && n <= |events|
  {
    if n == 0 then 0 else Crashes(states, events, n - 1) + if Complete(states[n - 1], events[n - 1]) then 0 else 1
  }

  /** The table after n events, given which of the interrupted operations took effect. */
  function Replay<D>(events: seq<Event<D>>, took: seq<bool>, n: nat): Table<D>
    requires n <= |events| && n <= |took|
  {
    if n == 0 then map[]
    else if took[n - 1] then Apply(Replay(events, took, n - 1), events[n - 1].op)
    else Replay(events, took, n - 1)
  }

  lemma {:induction false} ReplayPrefix<D>(events: seq<Event<D>>, took: seq<bool>, more: seq<bool>, n: nat)
    requires n <= |events| && n <= |took|
    ensures Replay(events, took + more, n) == Replay(events, took, n)
  {
    if n > 0 {
      ReplayPrefix(events, took, more, n - 1);
    }
  }

  /**
   * The store refines a plain table over every run with any number of crashes: each complete operation takes effect,
   * each interrupted one takes effect wholly or not at all.
   */
  lemma {:induction false} RunRefinesTable<D(!new)>(states: seq<Docs<D>>, events: seq<Event<D>>, n: nat)
      returns (took: seq<bool>)
    requires IsRun(states, events) && n <= |events|
    ensures Inv(states[n]) && |took| == n
    ensures View(states[n]) == Replay(events, took, n)
    ensures forall i | 0 <= i < n && Complete(states[i], events[i]) :: took[i]
  {
    if n == 0 {
      took := [];
      MeansByHolds(states[0], map[]);
    } else {
      took := RunRefinesTable(states, events, n - 1);
      var docs, e := states[n - 1], events[n - 1];
      CrashAtomic(docs, e.id, e.spare, e.op, e.steps);
      var effect := Complete(docs, e) || View(states[n]) != View(docs);
      var took' := took + [effect];
      ReplayPrefix(events, took, [effect], n - 1);
      assert View(states[n]) == if effect then Apply(View(docs), e.op) else View(docs);
      took := took';
    }
  }

  /** Garbage is bounded by overwriting Creates and crashes, and without crashes it is exactly the former. */
  lemma RunCensus<D(!new)>(states: seq<Docs<D>>, events: seq<Event<D>>, n: nat)
    requires IsRun(states, events) && n <= |events|
    ensures Inv(states[n])
    ensures |DataDocs(states[n])| <= |View(states[n])| + Overwrites(states, events, n) + Crashes(states, events, n)
    ensures Crashes(states, events, n) == 0 ==>
      |DataDocs(states[n])| == |View(states[n])| + Overwrites(states, events, n)
  {
    RunOrphans(states, events, n);
    Census(states[n]);
  }

  /** Without crashes every master has a tag; each crash leaves at most one without. */
  lemma {:induction false} RunTagless<D(!new)>(states: seq<Docs<D>>, events: seq<Event<D>>, n: nat)
    requires IsRun(states, events) && n <= |events|
    ensures Inv(states[n])
    ensures |Tagless(states[n])| <= Crashes(states, events, n)
    ensures Crashes(states, events, n) == 0 ==>
      Tagless(states[n]) == {} &&
      forall key :: MasterOf(states[n], key).Some? <==> exists tag :: (key, tag) in View(states[n])
  {
    if n > 0 {
      RunTagless(states, events, n - 1);
      var docs, e := states[n - 1], events[n - 1];
      CrashAtomic(docs, e.id, e.spare, e.op, e.steps);
      TaglessAfter(docs, e.id, e.spare, e.op, e.steps);
      var m: ObjectId :| Tagless(states[n]) <= Tagless(docs) + {m};
      Subset(Tagless(states[n]), Tagless(docs) + {m});
      if Complete(docs, e) {
        Subset(Tagless(states[n]), Tagless(docs));
      }
    }
    if Crashes(states, events, n) == 0 {
      forall key { MasterInTable(states[n], key); }
    }
  }

  lemma {:induction false} RunOrphans<D(!new)>(states: seq<Docs<D>>, events: seq<Event<D>>, n: nat)
    requires IsRun(states, events) && n <= |events|
    ensures Inv(states[n])
    ensures |Orphans(states[n])| <= Overwrites(states, events, n) + Crashes(states, events, n)
    ensures Crashes(states, events, n) == 0 ==> |Orphans(states[n])| == Overwrites(states, events, n)
  {
    if n > 0 {
      RunOrphans(states, events, n - 1);
      var docs, e := states[n - 1], events[n - 1];
      CrashAtomic(docs, e.id, e.spare, e.op, e.steps);
      OrphansAfter(docs, e.id, e.spare, e.op, e.steps);
      var i: ObjectId :| Orphans(states[n]) <= Orphans(docs) + {i};
      Subset(Orphans(states[n]), Orphans(docs) + {i});
      if Overwritten(docs, e.op) != {} {
        PointerTarget(docs, e.op.key, e.op.tag);
      }
      assert Complete(docs, e) ==> |Orphans(states[n])| == |Orphans(docs)| + |Overwritten(docs, e.op)|;
    }
  }
}
