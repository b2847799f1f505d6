/**
 * The shared "cluster" collection of orchestrator/pkg/infra/db/mongo.go: documents under keys of one, two or three
 * fields,
 * found by filters that also match everything below a key. What makes the code work is the order of the documents.
 */
module Collection {
  import opened Wrappers

  datatype ChildKind = NetworkChild | ProviderNetChild | LabelChild | KvPairsChild

  datatype Key =
    | ProviderKey(provider: string)
    | ClusterKey(provider: string, cluster: string)
    | ChildKey(provider: string, cluster: string, kind: ChildKind, name: string)

  datatype Tag = ClusterMetadata | ClusterContent | StateTag | NetworkMetadata

  datatype Document<+V> = Document(key: Key, tags: map<Tag, V>)

  /** A filter matches every document that has its fields with its values: its own and those of all children. */
  predicate Matches(filter: Key, key: Key) {
    match filter
    case ProviderKey(p) => key.provider == p
    case ClusterKey(p, c) => !key.ProviderKey? && key.provider == p && key.cluster == c
    case ChildKey(_, _, _, _) => key == filter
  }

  type Table<V> = map<Key, map<Tag, V>>

  /**
   * No document comes before one whose key matches it: keys are not repeated, and parents come before their children.
   */
  ghost predicate Ordered<V>(docs: seq<Document<V>>) {
    forall i, j | 0 <= i < j < |docs| :: !Matches(docs[j].key, docs[i].key)
  }

  /** Whatever has a child is there. */
  ghost predicate Closed<V>(table: Table<V>) {
    forall key, filter | key in table && Matches(filter, key) :: filter in table
  }

  ghost predicate Has<V>(docs: seq<Document<V>>, key: Key) {
    exists i | 0 <= i < |docs| :: docs[i].key == key
  }

  /** The documents spell out the table. */
  ghost predicate Stands<V>(docs: seq<Document<V>>, table: Table<V>) {
    && (forall key | key in table :: Has(docs, key))
    && (forall i | 0 <= i < |docs| :: docs[i].key in table && table[docs[i].key] == docs[i].tags)
  }

  ghost predicate Represents<V>(docs: seq<Document<V>>, table: Table<V>) {
    Ordered(docs) && Stands(docs, table) && Closed(table)
  }

  // ---------------------------------------------------------------- what the database does

  /** The position of the first match, or the end. */
  function FirstMatch<V>(docs: seq<Document<V>>, filter: Key): (i: nat)
    ensures i <= |docs|
    ensures forall j | 0 <= j < i :: !Matches(filter, docs[j].key)
    ensures i < |docs| ==> Matches(filter, docs[i].key)
  {
    if docs == [] || Matches(filter, docs[0].key) then 0 else 1 + FirstMatch(docs[1..], filter)
  }

  function Count<V>(docs: seq<Document<V>>, filter: Key): nat {
    if docs == [] then 0 else (if Matches(filter, docs[0].key) then 1 else 0) + Count(docs[1..], filter)
  }

  /** FindOneAndUpdate with $set and upsert. */
  function Upserted<V>(docs: seq<Document<V>>, key: Key, tag: Tag, value: V): seq<Document<V>> {
    var i := FirstMatch(docs, key);
    if i < |docs| then docs[i := docs[i].(tags := docs[i].tags[tag := value])]
    else docs + [Document(key, map[tag := value])]
  }

  /** The tag in every match, None where it is missing. */
  function Found<V>(docs: seq<Document<V>>, filter: Key, tag: Tag): seq<Option<V>> {
    if docs == [] then []
    else
      (if Matches(filter, docs[0].key) then [if tag in docs[0].tags then Some(docs[0].tags[tag]) else None] else [])
      + Found(docs[1..], filter, tag)
  }

  /** The children of one kind. */
  function Children<V>(docs: seq<Document<V>>, provider: string, cluster: string, kind: ChildKind): seq<Document<V>> {
    if docs == [] then []
    else
      (if IsChild(docs[0].key, provider, cluster, kind) then [docs[0]] else [])
      + Children(docs[1..], provider, cluster, kind)
  }

  /** Remove counts the matches, refuses if there is more than one, and deletes the first. */
  function Removed<V>(docs: seq<Document<V>>, key: Key): (seq<Document<V>>, bool) {
    var i := FirstMatch(docs, key);
    if Count(docs, key) > 1 then (docs, false)
    else if i == |docs| then (docs, true)
    else (docs[..i] + docs[i + 1..], true)
  }

  // ---------------------------------------------------------------- what that means for the table

  /** The first match of a key is its own document. */
  lemma FirstMatchIsOwn<V>(docs: seq<Document<V>>, table: Table<V>, key: Key)
    requires Represents(docs, table)
    ensures FirstMatch(docs, key) < |docs| <==> key in table
    ensures FirstMatch(docs, key) < |docs| ==> docs[FirstMatch(docs, key)].key == key
  {
    var i := FirstMatch(docs, key);
    if key in table {
      assert Has(docs, key);
      var j :| 0 <= j < |docs| && docs[j].key == key;
      assert Matches(key, docs[j].key);
      assert i == j;
    }
  }

  /** The table after an insert. */
  ghost function Put<V>(table: Table<V>, key: Key, tag: Tag, value: V): Table<V> {
    table[key := (if key in table then table[key] else map[])[tag := value]]
  }

  /** It adds or replaces one tag of one document, and leaves all other tags and documents. */
  lemma PutExactly<V>(table: Table<V>, key: Key, tag: Tag, value: V)
    ensures
      var table' := Put(table, key, tag, value);
      && key in table' && tag in table'[key] && table'[key][tag] == value
      && (forall t | t != tag :: t in table'[key] <==> key in table && t in table[key])
      && (forall t | t != tag && t in table'[key] :: table'[key][t] == table[key][t])
      && (forall k | k != key :: (k in table' <==> k in table) && (k in table' ==> table'[k] == table[k]))
  {
  }

  lemma UpdateMeaning<V>(docs: seq<Document<V>>, table: Table<V>, key: Key, i: nat, tags: map<Tag, V>)
    requires Represents(docs, table) && i < |docs| && docs[i].key == key
    ensures Represents(docs[i := docs[i].(tags := tags)], table[key := tags])
  {
    var docs' := docs[i := docs[i].(tags := tags)];
    assert forall k | 0 <= k < |docs| :: docs'[k].key == docs[k].key;
    forall k | 0 <= k < |docs| && k != i ensures docs[k].key != key {
      assert Matches(key, key);
    }
    forall other | other in table ensures Has(docs', other) {
      assert Has(docs, other);
      var k :| 0 <= k < |docs| && docs[k].key == other;
      assert docs'[k].key == other;
    }
  }

  lemma AppendMeaning<V>(docs: seq<Document<V>>, table: Table<V>, d: Document<V>)
    requires Represents(docs, table) && d.key !in table
    requires forall filter | filter != d.key && Matches(filter, d.key) :: filter in table
    ensures Represents(docs + [d], table[d.key := d.tags])
  {
    var docs', table' := docs + [d], table[d.key := d.tags];
    forall i | 0 <= i < |docs| ensures !Matches(d.key, docs[i].key) {
      assert docs[i].key in table;
    }
    forall other | other in table' ensures Has(docs', other) {
      if other == d.key {
        assert docs'[|docs|].key == other;
      } else {
        assert Has(docs, other);
        var k :| 0 <= k < |docs| && docs[k].key == other;
        assert docs'[k].key == other;
      }
    }
  }

  /** An insert under a key whose parents are there changes the document of that key, or adds it, and no other. */
  lemma UpsertMeaning<V>(docs: seq<Document<V>>, table: Table<V>, key: Key, tag: Tag, value: V)
    requires Represents(docs, table)
    requires forall filter | filter != key && Matches(filter, key) :: filter in table
    ensures Represents(Upserted(docs, key, tag, value), Put(table, key, tag, value))
  {
    var i := FirstMatch(docs, key);
    FirstMatchIsOwn(docs, table, key);
    if i < |docs| {
      assert table[key] == docs[i].tags;
      UpdateMeaning(docs, table, key, i, docs[i].tags[tag := value]);
    } else {
      AppendMeaning(docs, table, Document(key, map[tag := value]));
    }
  }

  /** A find under a key comes back empty exactly when the key has no document; the first result is that document's. */
  lemma FoundMeaning<V>(docs: seq<Document<V>>, table: Table<V>, key: Key, tag: Tag)
    requires Represents(docs, table)
    ensures Found(docs, key, tag) == [] <==> key !in table
    ensures key in table ==> Found(docs, key, tag)[0] == if tag in table[key] then Some(table[key][tag]) else None
  {
    FirstMatchIsOwn(docs, table, key);
    FoundFirst(docs, key, tag);
  }

  lemma {:induction false} FoundFirst<V>(docs: seq<Document<V>>, key: Key, tag: Tag)
    ensures Found(docs, key, tag) == [] <==> FirstMatch(docs, key) == |docs|
    ensures FirstMatch(docs, key) < |docs| ==>
      var tags := docs[FirstMatch(docs, key)].tags;
      Found(docs, key, tag)[0] == if tag in tags then Some(tags[tag]) else None
  {
    if docs != [] && !Matches(key, docs[0].key) {
      FoundFirst(docs[1..], key, tag);
    }
  }

  predicate IsChild(key: Key, provider: string, cluster: string, kind: ChildKind) {
    key.ChildKey? && key.provider == provider && key.cluster == cluster && key.kind == kind
  }

  lemma ChildrenStep<V>(docs: seq<Document<V>>, provider: string, cluster: string, kind: ChildKind, i: nat,
                        before: seq<Document<V>>)
    requires i < |docs|
    ensures before + Children(docs[i..], provider, cluster, kind) ==
            (if IsChild(docs[i].key, provider, cluster, kind) then before + [docs[i]] else before)
            + Children(docs[i + 1..], provider, cluster, kind)
  {
    assert docs[i..][1..] == docs[i + 1..];
  }

  lemma {:induction false} ChildrenHave<V>(docs: seq<Document<V>>, provider: string, cluster: string, kind: ChildKind,
                                           i: nat)
    requires i < |docs| && IsChild(docs[i].key, provider, cluster, kind)
    ensures Has(Children(docs, provider, cluster, kind), docs[i].key)
  {
    var rest := Children(docs[1..], provider, cluster, kind);
    if i == 0 {
      assert Children(docs, provider, cluster, kind)[0].key == docs[0].key;
    } else {
      ChildrenHave(docs[1..], provider, cluster, kind, i - 1);
      var j :| 0 <= j < |rest| && rest[j].key == docs[i].key;
      var here := if IsChild(docs[0].key, provider, cluster, kind) then 1 else 0;
      assert Children(docs, provider, cluster, kind)[j + here] == rest[j];
    }
  }

  /** The children found are documents of the collection. */
  lemma {:induction false} ChildrenIn<V>(docs: seq<Document<V>>, provider: string, cluster: string, kind: ChildKind,
                                         i: nat)
    requires i < |Children(docs, provider, cluster, kind)|
    ensures Children(docs, provider, cluster, kind)[i] in docs &&
      IsChild(Children(docs, provider, cluster, kind)[i].key, provider, cluster, kind)
  {
    var here := if IsChild(docs[0].key, provider, cluster, kind) then 1 else 0;
    if i >= here {
      ChildrenIn(docs[1..], provider, cluster, kind, i - here);
      assert docs == [docs[0]] + docs[1..];
    }
  }

  lemma {:induction false} ChildrenDistinct<V>(docs: seq<Document<V>>, provider: string, cluster: string,
                                               kind: ChildKind)
    requires Ordered(docs)
    ensures
      var children := Children(docs, provider, cluster, kind);
      forall i, j | 0 <= i < j < |children| :: children[i].key != children[j].key
  {
    if docs != [] {
      var tail := docs[1..];
      var rest := Children(tail, provider, cluster, kind);
      assert Ordered(tail) by {
        assert forall i | 0 <= i < |tail| :: tail[i] == docs[i + 1];
      }
      ChildrenDistinct(tail, provider, cluster, kind);
      forall i | 0 <= i < |rest| ensures rest[i].key != docs[0].key {
        ChildrenIn(tail, provider, cluster, kind, i);
        var j :| 0 <= j < |tail| && tail[j] == rest[i];
        assert tail[j] == docs[j + 1];
        assert Matches(docs[j + 1].key, docs[j + 1].key);
      }
    }
  }

  lemma ChildrenMeaning<V>(docs: seq<Document<V>>, table: Table<V>, provider: string, cluster: string, kind: ChildKind)
    requires Represents(docs, table)
    ensures
      var children := Children(docs, provider, cluster, kind);
      && (forall i, j | 0 <= i < j < |children| :: children[i].key != children[j].key)
      && (forall i | 0 <= i < |children| ::
        IsChild(children[i].key, provider, cluster, kind) &&
        children[i].key in table && table[children[i].key] == children[i].tags)
      && (forall key | key in table && IsChild(key, provider, cluster, kind) :: Has(children, key))
  {
    var children := Children(docs, provider, cluster, kind);
    ChildrenDistinct(docs, provider, cluster, kind);
    forall i: nat | i < |children|
      ensures IsChild(children[i].key, provider, cluster, kind) && children[i].key in table &&
        table[children[i].key] == children[i].tags
    {
      ChildrenIn(docs, provider, cluster, kind, i);
      var k :| 0 <= k < |docs| && docs[k] == children[i];
    }
    forall key | key in table && IsChild(key, provider, cluster, kind) ensures Has(children, key) {
      assert Has(docs, key);
      var i :| 0 <= i < |docs| && docs[i].key == key;
      ChildrenHave(docs, provider, cluster, kind, i);
    }
  }

  /** A remove is refused exactly when a child is left; otherwise it takes the document of the key and no other. */
  lemma RemoveMeaning<V>(docs: seq<Document<V>>, table: Table<V>, key: Key)
    requires Represents(docs, table)
    ensures
      var (docs', ok) := Removed(docs, key);
      && (ok <==> forall other | other in table && Matches(key, other) :: other == key)
      && Represents(docs', if ok then table - {key} else table)
  {
    FirstMatchIsOwn(docs, table, key);
    CountMeaning(docs, key);
    RefusedExactly(docs, table, key);
    if Count(docs, key) <= 1 && FirstMatch(docs, key) < |docs| {
      DropMeaning(docs, table, FirstMatch(docs, key), key);
    } else if Count(docs, key) <= 1 {
      assert table - {key} == table;
    }
  }

  lemma {:induction false} CountMeaning<V>(docs: seq<Document<V>>, filter: Key)
    ensures Count(docs, filter) == 0 <==> FirstMatch(docs, filter) == |docs|
    ensures Count(docs, filter) > 1 <==>
      exists j :: FirstMatch(docs, filter) < j < |docs| && Matches(filter, docs[j].key)
  {
    if docs != [] {
      CountMeaning(docs[1..], filter);
      var i := FirstMatch(docs, filter);
      if Matches(filter, docs[0].key) {
        var rest := FirstMatch(docs[1..], filter);
        if rest < |docs| - 1 {
          assert docs[rest + 1] == docs[1..][rest];
        }
        assert forall j | 0 < j < |docs| :: docs[j] == docs[1..][j - 1];
      } else {
        assert forall j | 0 <= j < |docs| - 1 :: docs[1..][j] == docs[j + 1];
        if exists j :: i < j < |docs| && Matches(filter, docs[j].key) {
          var j :| i < j < |docs| && Matches(filter, docs[j].key);
          assert Matches(filter, docs[1..][j - 1].key);
        }
        if exists j :: i - 1 < j < |docs| - 1 && Matches(filter, docs[1..][j].key) {
          var j :| i - 1 < j < |docs| - 1 && Matches(filter, docs[1..][j].key);
          assert Matches(filter, docs[j + 1].key);
        }
      }
    }
  }

  lemma RefusedExactly<V>(docs: seq<Document<V>>, table: Table<V>, key: Key)
    requires Represents(docs, table)
    ensures Count(docs, key) > 1 <==> exists other :: other in table && Matches(key, other) && other != key
  {
    CountMeaning(docs, key);
    FirstMatchIsOwn(docs, table, key);
    var i := FirstMatch(docs, key);
    if Count(docs, key) > 1 {
      var j :| i < j < |docs| && Matches(key, docs[j].key);
      assert docs[j].key != key by {
        assert Matches(docs[j].key, docs[j].key);
      }
      assert docs[j].key in table;
    }
    if other :| other in table && Matches(key, other) && other != key {
      assert Has(docs, other) && key in table;
      var j :| 0 <= j < |docs| && docs[j].key == other;
      assert i < j;
    }
  }

  lemma DropMeaning<V>(docs: seq<Document<V>>, table: Table<V>, i: nat, key: Key)
    requires Represents(docs, table) && i < |docs| && docs[i].key == key
    requires forall other | other in table && Matches(key, other) :: other == key
    ensures Represents(docs[..i] + docs[i + 1..], table - {key})
  {
    var docs' := docs[..i] + docs[i + 1..];
    assert forall k | 0 <= k < |docs'| :: docs'[k] == docs[if k < i then k else k + 1];
    forall k | 0 <= k < |docs| && k != i ensures docs[k].key != key {
      assert Matches(key, key);
    }
    DropKeepsTable(docs, table, i, key, docs');
    assert Ordered(docs');
    assert Closed(table - {key});
  }

  lemma DropKeepsTable<V>(docs: seq<Document<V>>, table: Table<V>, i: nat, key: Key, docs': seq<Document<V>>)
    requires Stands(docs, table) && i < |docs| && docs[i].key == key && |docs'| == |docs| - 1
    requires forall k | 0 <= k < |docs'| :: docs'[k] == docs[if k < i then k else k + 1]
    requires forall k | 0 <= k < |docs| && k != i :: docs[k].key != key
    ensures Stands(docs', table - {key})
  {
    forall other | other in table - {key} ensures Has(docs', other) {
      assert Has(docs, other);
      var k :| 0 <= k < |docs| && docs[k].key == other;
      assert docs'[if k < i then k else k - 1].key == other;
    }
  }

  // ---------------------------------------------------------------- the calls

  class Store<V(!new)> {
    var docs: seq<Document<V>>
    ghost var table: Table<V>

    ghost predicate Valid()
      reads this
    {
      Represents(docs, table)
    }

    constructor ()
      ensures Valid() && table == map[]
    {
      docs, table := [], map[];
    }

    method Position(filter: Key) returns (i: nat)
      ensures i == FirstMatch(docs, filter)
    {
      i := 0;
      while i < |docs| && !Matches(filter, docs[i].key)
        invariant i <= |docs| && i + FirstMatch(docs[i..], filter) == FirstMatch(docs, filter)
      {
        assert docs[i..][1..] == docs[i + 1..];
        i := i + 1;
      }
    }

    method Insert(key: Key, tag: Tag, value: V)
      requires Valid()
      requires forall filter | filter != key && Matches(filter, key) :: filter in table
      modifies this
      ensures Valid() && table == Put(old(table), key, tag, value)
    {
      UpsertMeaning(docs, table, key, tag, value);
      table := Put(table, key, tag, value);
      var i := Position(key);
      if i < |docs| {
        docs := docs[i := docs[i].(tags := docs[i].tags[tag := value])];
      } else {
        docs := docs + [Document(key, map[tag := value])];
      }
    }

    /** Find: the tag in every document the filter matches. */
    method FindAll(filter: Key, tag: Tag) returns (values: seq<Option<V>>)
      ensures values == Found(docs, filter, tag)
    {
      values := [];
      for i := 0 to |docs|
        invariant values + Found(docs[i..], filter, tag) == Found(docs, filter, tag)
      {
        assert docs[i..][1..] == docs[i + 1..];
        if Matches(filter, docs[i].key) {
          values := values + [if tag in docs[i].tags then Some(docs[i].tags[tag]) else None];
        }
      }
    }

    method Find(filter: Key, tag: Tag) returns (values: seq<Option<V>>)
      requires Valid()
      ensures values == [] <==> filter !in table
      ensures filter in table ==> values[0] == if tag in table[filter] then Some(table[filter][tag]) else None
    {
      FoundMeaning(docs, table, filter, tag);
      values := FindAll(filter, tag);
    }

    /** Find with an empty name: the documents of the children of one kind. */
    method FindKind(provider: string, cluster: string, kind: ChildKind) returns (children: seq<Document<V>>)
      ensures children == Children(docs, provider, cluster, kind)
    {
      children := [];
      for i := 0 to |docs|
        invariant children + Children(docs[i..], provider, cluster, kind) == Children(docs, provider, cluster, kind)
      {
        ChildrenStep(docs, provider, cluster, kind, i, children);
        if IsChild(docs[i].key, provider, cluster, kind) {
          children := children + [docs[i]];
        }
      }
    }

    /** They are the children in the table, each once. */
    method FindChildren(provider: string, cluster: string, kind: ChildKind) returns (children: seq<Document<V>>)
      requires Valid()
      ensures forall i, j | 0 <= i < j < |children| :: children[i].key != children[j].key
      ensures forall i | 0 <= i < |children| ::
        IsChild(children[i].key, provider, cluster, kind) &&
        children[i].key in table && table[children[i].key] == children[i].tags
      ensures forall key | key in table && IsChild(key, provider, cluster, kind) :: Has(children, key)
    {
      ChildrenMeaning(docs, table, provider, cluster, kind);
      children := FindKind(provider, cluster, kind);
    }

    method Remove(key: Key) returns (ok: bool)
      requires Valid()
      modifies this
      ensures Valid()
      ensures ok <==> forall other | other in old(table) && Matches(key, other) :: other == key
      ensures table == if ok then old(table) - {key} else old(table)
    {
      RemoveMeaning(docs, table, key);
      var count := CountDocuments(key);
      if count > 1 {
        return false;
      }
      table := table - {key};
      var i := Position(key);
      if i < |docs| {
        docs := docs[..i] + docs[i + 1..];
      }
      ok := true;
    }

    method CountDocuments(filter: Key) returns (count: nat)
      ensures count == Count(docs, filter)
    {
      count := 0;
      for i := 0 to |docs|
        invariant count + Count(docs[i..], filter) == Count(docs, filter)
      {
        assert docs[i..][1..] == docs[i + 1..];
        if Matches(filter, docs[i].key) {
          count := count + 1;
        }
      }
    }
  }
}
