/**
 * The configuration client over its flat key-value store: config.go and config_backend.go. The methods follow the code
 * step by step on string keys; each is proved to act as the operation of ConfigHistory with the same name.
 */
module ConfigClient {
  import opened Wrappers
  import opened Decimal
  import opened KeyCodec
  import opened ConfigHistory

  /** resolveModelFromInstance: the resource bundle, version and profile an instance was made from. */
  datatype Model = Model(rbName: string, rbVersion: string, profile: string)

  /** What a key holds. Serialisation is not modelled: a document is stored as itself, a number as decimal text. */
  datatype Value = Doc(config: Config) | VersionDoc(entry: Entry) | Text(text: string)

  /** The four kinds of keys the client builds. */
  datatype StoreKey =
    | DataKey(id: ConfigId)
    | CounterKey(id: ConfigId)
    | VersionKey(id: ConfigId, version: nat)
    | TagKey(id: ConfigId, tag: string)

  /** Instance names come from a generator; they and the names they resolve to are taken to be free of slashes. */
  type Models = models: map<string, Model> | forall inst | inst in models ::
    SlashFree(inst) && SlashFree(models[inst].rbName) &&
    SlashFree(models[inst].rbVersion) && SlashFree(models[inst].profile)

  /** The names of configurations and tags may be any strings. */
  predicate GoodKey(models: Models, k: StoreKey) {
    k.id.inst in models
  }

  function Kind(k: StoreKey): string {
    match k
    case DataKey(_) => "configdata"
    case CounterKey(_) => "counter"
    case VersionKey(_, _) => "configversion"
    case TagKey(_, _) => "configtag"
  }

  function Head(models: Models, inst: string, kind: string): seq<string> {
    var m := if inst in models then models[inst] else Model("", "", "");
    [m.rbName, m.rbVersion, m.profile, inst, kind]
  }

  /** The segment after the name, if there is one. */
  function Detail(k: StoreKey): seq<string> {
    match k
    case DataKey(_) => []
    case CounterKey(_) => []
    case VersionKey(_, n) => [Itoa(n)]
    case TagKey(_, tag) => [tag]
  }

  function Segments(models: Models, k: StoreKey): seq<string> {
    Head(models, k.id.inst, Kind(k)) + [k.id.name] + Detail(k)
  }

  function Path(models: Models, k: StoreKey): string {
    Key(Segments(models, k))
  }

  /** The place of an entry. */
  function Place(models: Models, k: StoreKey): Option<string> {
    if GoodKey(models, k) then Some(Path(models, k)) else None
  }

  /** The keys of a configuration, in full. */
  lemma PathText(models: Models, k: StoreKey)
    requires k.id.inst in models
    ensures
      var m := models[k.id.inst];
      var kind := match k
        case DataKey(_) => "configdata"
        case CounterKey(_) => "counter"
        case VersionKey(_, _) => "configversion"
        case TagKey(_, _) => "configtag";
      var detail := match k
        case VersionKey(_, n) => Itoa(n) + "/"
        case TagKey(_, tag) => tag + "/"
        case _ => "";
      Path(models, k) ==
        ROOT + (m.rbName + "/" + (m.rbVersion + "/" + (m.profile + "/" + (k.id.inst + "/" + (kind + "/"))))) +
        (k.id.name + "/" + detail)
    ensures ROOT == "onapk8s" + "/" + "config" + "/"
  {
    PathParts(models, k);
    var s, m := Head(models, k.id.inst, Kind(k)), models[k.id.inst];
    assert s[1..][1..] == s[2..] && s[2..][1..] == s[3..] && s[3..][1..] == s[4..] && s[4..][1..] == [];
    assert Joined(s) ==
      m.rbName + "/" + (m.rbVersion + "/" + (m.profile + "/" + (k.id.inst + "/" + (Kind(k) + "/")))) by {
      assert Joined(s[4..]) == Kind(k) + "/" && Joined(s[3..]) == k.id.inst + "/" + Joined(s[4..]);
      assert Joined(s[2..]) == m.profile + "/" + Joined(s[3..]) && Joined(s[1..]) == m.rbVersion + "/" + Joined(s[2..]);
    }
    if Detail(k) != [] {
      DetailTail(k);
      assert Tail(k) == k.id.name + "/" + (Detail(k)[0] + "/");
    } else {
      assert Tail(k) == k.id.name + "/" + "";
    }
  }

  lemma GoodHead(models: Models, k: StoreKey)
    requires GoodKey(models, k)
    ensures AllSlashFree(Head(models, k.id.inst, Kind(k)))
    ensures |Detail(k)| <= 1 && (AllSlashFree(Detail(k)) || (k.TagKey? && !SlashFree(k.tag)))
  {
    if k.VersionKey? {
      var digits := Itoa(k.version);
      assert forall i | 0 <= i < |digits| :: digits[i] != '/';
    }
  }

  /** A path is the slash-free head, the name, and at most one segment more. */
  lemma PathParts(models: Models, k: StoreKey)
    requires GoodKey(models, k)
    ensures Path(models, k) == Key(Head(models, k.id.inst, Kind(k))) + Tail(k)
  {
    var head, name, detail := Head(models, k.id.inst, Kind(k)), k.id.name, Detail(k);
    assert Segments(models, k) == head + ([name] + detail);
    KeyTail(head, [name] + detail);
    JoinedAppend([name], detail);
    assert Joined([name]) == name + "/";
  }

  function Tail(k: StoreKey): string {
    k.id.name + "/" + Joined(Detail(k))
  }

  /** Keys of different kinds or instances are nowhere near each other. */
  lemma PathPrefix(models: Models, scope: StoreKey, k: StoreKey, tail: string)
    requires GoodKey(models, scope) && GoodKey(models, k)
    ensures Key(Head(models, scope.id.inst, Kind(scope))) + tail <= Path(models, k) <==>
      scope.id.inst == k.id.inst && Kind(scope) == Kind(k) && tail <= Tail(k)
  {
    GoodHead(models, scope);
    GoodHead(models, k);
    PathParts(models, k);
    var p, q := Head(models, scope.id.inst, Kind(scope)), Head(models, k.id.inst, Kind(k));
    HeadPrefix(p, q, tail, Tail(k));
    assert p == q ==> p[3] == q[3] && p[4] == q[4];
  }

  lemma SamePathKind(models: Models, k: StoreKey, l: StoreKey)
    requires GoodKey(models, k) && GoodKey(models, l) && Path(models, k) == Path(models, l)
    ensures Kind(k) == Kind(l) && k.id.inst == l.id.inst
  {
    PathParts(models, k);
    PathPrefix(models, k, l, Tail(k));
  }

  lemma DetailTail(k: StoreKey)
    requires Detail(k) != []
    ensures Tail(k) == k.id.name + "/" + Detail(k)[0] + "/"
  {
    var detail := Detail(k);
    assert detail[1..] == [];
    assert Joined(detail) == detail[0] + "/" + Joined(detail[1..]);
  }

  lemma TailInjective(k: StoreKey, l: StoreKey)
    requires Kind(k) == Kind(l) && k.id.inst == l.id.inst && Tail(k) == Tail(l)
    requires AllSlashFree(Detail(k)) && AllSlashFree(Detail(l))
    ensures k == l
  {
    var x, y := Joined(Detail(k)), Joined(Detail(l));
    if Detail(k) == [] {
      assert x == y == "";
      assert Tail(k)[..|Tail(k)| - 1] == k.id.name && Tail(l)[..|Tail(l)| - 1] == l.id.name;
    } else {
      var a, b := Detail(k)[0], Detail(l)[0];
      DetailTail(k);
      DetailTail(l);
      assert k.id.name + "/" + a == l.id.name + "/" + b by {
        assert Tail(k)[..|Tail(k)| - 1] == k.id.name + "/" + a && Tail(l)[..|Tail(l)| - 1] == l.id.name + "/" + b;
      }
      LastSegment(k.id.name, a, l.id.name, b);
      if k.VersionKey? {
        ItoaInjective(k.version, l.version);
      }
    }
  }

  /** Different entries never share a key, whatever the names; of tags only those with slashes can. */
  lemma PathInjective(models: Models, k: StoreKey, l: StoreKey)
    requires GoodKey(models, k) && GoodKey(models, l)
    requires k.TagKey? && l.TagKey? ==> SlashFree(k.tag) && SlashFree(l.tag)
    requires Path(models, k) == Path(models, l)
    ensures k == l
  {
    PathParts(models, k);
    PathParts(models, l);
    PathPrefix(models, k, l, Tail(k));
    PathPrefix(models, l, k, Tail(l));
    assert Tail(k) == Tail(l);
    GoodHead(models, k);
    GoodHead(models, l);
    TailInjective(k, l);
  }

  /** One name runs on, after a slash, into the tag of the other. */
  predicate Share(a: string, s: string, b: string, t: string) {
    || (a == b && s == t)
    || (a + "/" <= b && s == Behind(b, a) + "/" + t)
    || (b + "/" <= a && t == Behind(a, b) + "/" + s)
  }

  /** Tags with slashes can share an entry: exactly when one name runs on into what is the other one's tag. */
  lemma TagsShareExactly(models: Models, inst: string, a: string, s: string, b: string, t: string)
    requires inst in models
    ensures Path(models, TagKey(ConfigId(inst, a), s)) == Path(models, TagKey(ConfigId(inst, b), t)) <==>
      Share(a, s, b, t)
  {
    var k, l := TagKey(ConfigId(inst, a), s), TagKey(ConfigId(inst, b), t);
    var head := Key(Head(models, inst, "configtag"));
    assert Path(models, k) == head + (a + "/" + s + "/") && Path(models, l) == head + (b + "/" + t + "/") by {
      TagPath(models, k);
      TagPath(models, l);
    }
    var x, y := a + "/" + s, b + "/" + t;
    assert Path(models, k) == Path(models, l) <==> x == y by {
      assert Path(models, k)[|head|..] == x + "/" && Path(models, l)[|head|..] == y + "/";
      assert (x + "/")[..|x|] == x && (y + "/")[..|y|] == y;
    }
    SplitsAgree(a, s, b, t);
  }

  lemma TagPath(models: Models, k: StoreKey)
    requires k.TagKey? && k.id.inst in models
    ensures Path(models, k) == Key(Head(models, k.id.inst, "configtag")) + (k.id.name + "/" + k.tag + "/")
  {
    var head := Head(models, k.id.inst, "configtag");
    assert Segments(models, k) == head + [k.id.name, k.tag];
    KeyTail(head, [k.id.name, k.tag]);
    assert [k.id.name, k.tag][1..] == [k.tag];
    assert Joined([k.tag]) == k.tag + "/";
  }

  lemma SplitsAgree(a: string, s: string, b: string, t: string)
    ensures a + "/" + s == b + "/" + t <==> Share(a, s, b, t)
  {
    var x, y := a + "/" + s, b + "/" + t;
    assert x[..|a| + 1] == a + "/" && x[|a| + 1..] == s && y[..|b| + 1] == b + "/" && y[|b| + 1..] == t;
    assert x[..|a|] == a && y[..|b|] == b;
    assert x == y && |a| < |b| ==> a + "/" == b[..|a| + 1];
    assert x == y && |b| < |a| ==> b + "/" == a[..|b| + 1];
    if a + "/" <= b {
      assert b == a + "/" + Behind(b, a);
      assert y == a + "/" + (Behind(b, a) + "/" + t);
      assert y[|a| + 1..] == Behind(b, a) + "/" + t;
    } else if b + "/" <= a {
      assert a == b + "/" + Behind(a, b);
      assert x == b + "/" + (Behind(a, b) + "/" + s);
      assert x[|b| + 1..] == Behind(a, b) + "/" + s;
    }
  }

  /** A name goes on from another one into its version or tag. */
  predicate RunsInto(name: string, other: string, detail: string) {
    other + "/" <= name && (Behind(name, other) == detail || Behind(name, other) + "/" <= detail)
  }

  /** The prefix of a name reaches an entry: it is the name's own, or slashes in one of the names lead there. */
  predicate Reached(scope: ConfigId, k: StoreKey) {
    && k.id.inst == scope.inst
    && (scope.name == k.id.name || scope.name + "/" <= k.id.name
        || (Detail(k) != [] && RunsInto(scope.name, k.id.name, Detail(k)[0])))
  }

  /** The keys under a name's version, counter or tag prefix are the keys of that kind that the name reaches. */
  lemma PrefixReaches(models: Models, scope: StoreKey, k: StoreKey)
    requires GoodKey(models, scope) && GoodKey(models, k)
    ensures Key(Head(models, scope.id.inst, Kind(scope)) + [scope.id.name]) <= Path(models, k) <==>
      Kind(k) == Kind(scope) && Reached(scope.id, k)
  {
    var head, name := Head(models, scope.id.inst, Kind(scope)), scope.id.name;
    KeyTail(head, [name]);
    assert Joined([name]) == name + "/";
    PathPrefix(models, scope, k, name + "/");
    if Detail(k) == [] {
      assert Tail(k) == k.id.name + "/";
      NameReach(name, k.id.name);
    } else {
      DetailTail(k);
      SegmentReach(name, k.id.name, Detail(k)[0]);
    }
  }

  /** The prefix of an instance's configurations reaches the data entries of that instance, and no others. */
  lemma ListIsolates(models: Models, inst: string, k: StoreKey)
    requires inst in models && GoodKey(models, k)
    ensures Key(Head(models, inst, Kind(DataKey(k.id)))) <= Path(models, k) <==> k.DataKey? && k.id.inst == inst
  {
    var scope := DataKey(ConfigId(inst, ""));
    PathPrefix(models, scope, k, "");
    var head := Key(Head(models, inst, Kind(scope)));
    assert head + "" == head;
  }

  ghost predicate ShowsData(store: map<StoreKey, Value>, id: ConfigId, stored: Option<Config>) {
    && (DataKey(id) in store <==> stored.Some?)
    && (stored.Some? ==> store[DataKey(id)] == Doc(stored.value))
  }

  /** The counter is absent before the first version; there is an entry for exactly the versions 1..counter. */
  ghost predicate ShowsLog(store: map<StoreKey, Value>, id: ConfigId, log: seq<Entry>) {
    && |log| < INT64_LIMIT
    && (CounterKey(id) in store <==> log != [])
    && (log != [] ==> store[CounterKey(id)] == Text(Itoa(|log|)))
    && (forall n: nat :: VersionKey(id, n) in store <==> 1 <= n <= |log|)
    && (forall n: nat | 1 <= n <= |log| :: store[VersionKey(id, n)] == VersionDoc(log[n - 1]))
  }

  ghost predicate ShowsTags(store: map<StoreKey, Value>, id: ConfigId, tags: map<string, nat>) {
    && (forall tag :: TagKey(id, tag) in store <==> tag in tags)
    && (forall tag | tag in tags :: store[TagKey(id, tag)] == Text(Itoa(tags[tag])) && tags[tag] < INT64_LIMIT)
  }

  /** The entries of one configuration spell out a history. */
  ghost predicate Shows(store: map<StoreKey, Value>, id: ConfigId, h: History) {
    ShowsData(store, id, h.stored) && ShowsLog(store, id, h.log) && ShowsTags(store, id, h.tags)
  }

  /** Equal histories are equal entries, so undoing to a history restores the database entries one by one. */
  lemma HistoryDeterminesEntries(store: map<StoreKey, Value>, store': map<StoreKey, Value>, id: ConfigId, h: History,
                                 h': History)
    requires Shows(store, id, h) && Shows(store', id, h')
    ensures h.stored == h'.stored && h.log == h'.log <==>
      forall k: StoreKey | k.id == id && !k.TagKey? ::
        (k in store <==> k in store') && (k in store ==> store[k] == store'[k])
  {
    if forall k: StoreKey | k.id == id && !k.TagKey? ::
      (k in store <==> k in store') && (k in store ==> store[k] == store'[k]) {
      assert DataKey(id) in store <==> DataKey(id) in store';
      SameLength(store, store', id, h.log, h'.log);
      SameLength(store', store, id, h'.log, h.log);
      forall i | 0 <= i < |h.log| ensures h.log[i] == h'.log[i] {
        assert store[VersionKey(id, i + 1)] == store'[VersionKey(id, i + 1)];
      }
    }
  }

  lemma SameLength(store: map<StoreKey, Value>, store': map<StoreKey, Value>, id: ConfigId, log: seq<Entry>,
                   log': seq<Entry>)
    requires ShowsLog(store, id, log) && ShowsLog(store', id, log')
    requires forall n: nat :: VersionKey(id, n) in store <==> VersionKey(id, n) in store'
    ensures |log| <= |log'|
  {
    if log != [] {
      assert VersionKey(id, |log|) in store;
    }
  }

  /** The two writes that file a version. */
  function Filed(store: map<StoreKey, Value>, id: ConfigId, version: nat, entry: Entry): map<StoreKey, Value> {
    store[CounterKey(id) := Text(Itoa(version))][VersionKey(id, version) := VersionDoc(entry)]
  }

  /** Storing a configuration and filing its version spells out the history with one more version. */
  lemma AppendShown(store: map<StoreKey, Value>, id: ConfigId, h: History, p: Config, action: Action,
                    resources: seq<string>)
    requires Shows(store, id, h) && |h.log| + 1 < INT64_LIMIT
    requires WellFormed(h, id.name) && p.name == id.name && (action == POST ==> h.stored.None?)
    ensures
      var h' := Append(h, p, action, resources);
      var store' := Filed(store[DataKey(id) := Doc(p)], id, |h'.log|, h'.log[|h.log|]);
      Shows(store', id, h') && SameElsewhere(store, store', id) && WellFormed(h', id.name)
  {
  }

  lemma StoredShown(store: map<StoreKey, Value>, id: ConfigId, h: History, p: Config)
    requires Shows(store, id, h)
    ensures Shows(store[DataKey(id) := Doc(p)], id, h.(stored := Some(p)))
    ensures SameElsewhere(store, store[DataKey(id) := Doc(p)], id)
  {
  }

  /** Deleting the top entry and lowering the counter spells out the history with one version less. */
  lemma CutShown(store: map<StoreKey, Value>, id: ConfigId, h: History)
    requires Shows(store, id, h) && |h.log| >= 2
    ensures
      var store' := (store - {VersionKey(id, |h.log|)})[CounterKey(id) := Text(Itoa(|h.log| - 1))];
      Shows(store', id, h.(log := h.log[..|h.log| - 1])) && SameElsewhere(store, store', id)
  {
  }

  ghost predicate SameElsewhere(store: map<StoreKey, Value>, store': map<StoreKey, Value>, id: ConfigId) {
    forall k: StoreKey | k.id != id :: (k in store <==> k in store') && (k in store ==> store[k] == store'[k])
  }

  ghost predicate ShowsAll(models: Models, store: map<StoreKey, Value>, s: State) {
    forall id: ConfigId {:trigger Shows(store, id, At(s, id))} | id.inst in models :: Shows(store, id, At(s, id))
  }

  /** What deleting a configuration and cleaning up its name leaves. */
  function Wiped(store: map<StoreKey, Value>, id: ConfigId): map<StoreKey, Value> {
    map k | k in store && k != DataKey(id) && (k.DataKey? || !Reached(id, k)) :: store[k]
  }

  /** What deleting one kind of keys that a name reaches leaves. */
  function Cleared(store: map<StoreKey, Value>, kind: string, id: ConfigId): map<StoreKey, Value> {
    map k | k in store && !(Kind(k) == kind && Reached(id, k)) :: store[k]
  }

  /** Nothing the name reaches is left but data. */
  function CleanedOf(store: map<StoreKey, Value>, id: ConfigId): map<StoreKey, Value> {
    map k | k in store && (k.DataKey? || !Reached(id, k)) :: store[k]
  }

  /** The three prefixes together reach everything of the name but its data. */
  lemma ThreeKinds(store: map<StoreKey, Value>, id: ConfigId)
    ensures CleanedOf(store, id) ==
      Cleared(Cleared(Cleared(store, "configversion", id), "counter", id), "configtag", id)
  {
    var tags := Cleared(Cleared(Cleared(store, "configversion", id), "counter", id), "configtag", id);
    forall k ensures k in tags <==> k in store && (k.DataKey? || !Reached(id, k)) {
      match k
      case DataKey(_) =>
      case CounterKey(_) =>
      case VersionKey(_, _) =>
      case TagKey(_, _) =>
    }
  }

  /** The name reaches nothing of this history of the name `other`. */
  ghost predicate Clear(h: History, name: string, other: string) {
    && (h.log != [] ==> !(name + "/" <= other) && forall n | 1 <= n <= |h.log| :: !RunsInto(name, other, Itoa(n)))
    && (forall tag | tag in h.tags :: !(name + "/" <= other) && !RunsInto(name, other, tag))
  }

  /**
   * The name of this configuration reaches no other one of its instance. Without slashes in names this always holds.
   */
  ghost predicate Apart(s: State, id: ConfigId) {
    forall other: ConfigId {:trigger At(s, other)} | other.inst == id.inst && other != id ::
      Clear(At(s, other), id.name, other.name)
  }

  lemma ApartAlone(s: State, id: ConfigId, h: History)
    requires Apart(s, id)
    ensures Apart(s[id := h], id)
  {
    forall other: ConfigId | other.inst == id.inst && other != id
      ensures Clear(At(s[id := h], other), id.name, other.name) {
      assert Clear(At(s, other), id.name, other.name);
    }
  }

  lemma SlashFreeApart(s: State, id: ConfigId)
    requires SlashFree(id.name) && forall other: ConfigId | other.inst == id.inst && other in s :: SlashFree(other.name)
    ensures Apart(s, id)
  {
    forall other: ConfigId | other.inst == id.inst && other != id && other in s
      ensures Clear(At(s, other), id.name, other.name) {
      PrefixHasSlash(id.name, other.name);
      PrefixHasSlash(other.name, id.name);
    }
  }

  /** Wiping one configuration leaves another one of the instance as it was exactly when the name does not reach it. */
  lemma WipeHarmlessExactly(store: map<StoreKey, Value>, id: ConfigId, other: ConfigId, h: History)
    requires Shows(store, other, h) && other.inst == id.inst && other != id
    ensures Shows(Wiped(store, id), other, h) <==> Clear(h, id.name, other.name)
  {
    var wiped := Wiped(store, id);
    assert Reached(id, CounterKey(other)) <==> id.name + "/" <= other.name;
    assert forall n :: Reached(id, VersionKey(other, n)) <==>
      id.name + "/" <= other.name || RunsInto(id.name, other.name, Itoa(n));
    assert forall tag :: Reached(id, TagKey(other, tag)) <==>
      id.name + "/" <= other.name || RunsInto(id.name, other.name, tag);
    assert DataKey(other) in wiped <==> DataKey(other) in store;
    if Clear(h, id.name, other.name) {
      assert ShowsLog(wiped, other, h.log);
      assert ShowsTags(wiped, other, h.tags);
    } else if h.log != [] && id.name + "/" <= other.name {
      assert CounterKey(other) !in wiped;
    } else if n :| 1 <= n <= |h.log| && RunsInto(id.name, other.name, Itoa(n)) {
      assert VersionKey(other, n) !in wiped;
    } else {
      var tag :| tag in h.tags && (id.name + "/" <= other.name || RunsInto(id.name, other.name, tag));
      assert TagKey(other, tag) !in wiped;
    }
  }

  /** No other tag of the instance shares the entry. */
  ghost predicate TagAlone(s: State, id: ConfigId, tag: string) {
    forall other: ConfigId, t | other.inst == id.inst && t in At(s, other).tags && Share(id.name, tag, other.name, t) ::
      other == id && t == tag
  }

  lemma ShareHasSlash(a: string, s: string, b: string, t: string)
    ensures Share(a, s, b, t) ==> (a == b && s == t) || '/' in s || '/' in t
  {
    if a + "/" <= b {
      assert '/' in Behind(b, a) + "/" + t;
    }
    if b + "/" <= a {
      assert '/' in Behind(a, b) + "/" + s;
    }
  }

  /** Tags without slashes never share one. */
  lemma SlashFreeTagAlone(s: State, id: ConfigId, tag: string)
    requires SlashFree(tag)
    requires forall other: ConfigId, t | other.inst == id.inst && t in At(s, other).tags :: SlashFree(t)
    ensures TagAlone(s, id, tag)
  {
    forall other: ConfigId, t | other.inst == id.inst && t in At(s, other).tags && Share(id.name, tag, other.name, t)
      ensures other == id && t == tag
    {
      ShareHasSlash(id.name, tag, other.name, t);
      assert SlashFree(t) && SlashFree(tag);
    }
  }

  lemma WipeElsewhere(store: map<StoreKey, Value>, id: ConfigId, other: ConfigId, h: History)
    requires Shows(store, other, h) && other.inst != id.inst
    ensures Shows(Wiped(store, id), other, h)
  {
    assert forall k: StoreKey | k.id == other :: !Reached(id, k);
  }

  lemma WipeShown(models: Models, store: map<StoreKey, Value>, s: State, id: ConfigId)
    requires ShowsAll(models, store, s) && AllWellFormed(s) && Apart(s, id) && id.inst in models
    ensures ShowsAll(models, Wiped(store, id), s[id := EMPTY]) && AllWellFormed(s[id := EMPTY])
  {
    forall other: ConfigId | other.inst in models ensures Shows(Wiped(store, id), other, At(s[id := EMPTY], other)) {
      var h := At(s, other);
      assert Shows(store, other, h);
      if other == id {
        assert forall k: StoreKey | k.id == id :: Reached(id, k);
      } else if other.inst == id.inst {
        WipeHarmlessExactly(store, id, other, h);
      } else {
        WipeElsewhere(store, id, other, h);
      }
    }
    forall other ensures WellFormed(At(s[id := EMPTY], other), other.name) {
      assert WellFormed(At(s, other), other.name);
    }
  }

  /** Changing the entries of one configuration leaves every other configuration as it was. */
  lemma Isolation(models: Models, store: map<StoreKey, Value>, store': map<StoreKey, Value>, s: State, s': State,
                  id: ConfigId)
    requires ShowsAll(models, store, s) && SameElsewhere(store, store', id)
    requires forall other | other != id :: At(s', other) == At(s, other)
    requires Shows(store', id, At(s', id))
    ensures ShowsAll(models, store', s')
  {
    forall other: ConfigId | other.inst in models ensures Shows(store', other, At(s', other)) {
      assert Shows(store, other, At(s, other));
    }
  }

  class Client {
    const models: Models

    /** The etcd database. */
    var items: map<string, Value>

    /** The same entries by what their keys mean. */
    ghost var store: map<StoreKey, Value>

    ghost var view: State

    ghost predicate Mirrors()
      reads this
    {
      && (forall k {:trigger Place(models, k)} | k in store ::
        Place(models, k).Some? && Place(models, k).value in items && items[Place(models, k).value] == store[k])
      && (forall path | path in items ::
        exists k {:trigger Place(models, k)} :: k in store && Place(models, k) == Some(path))
      && (forall k, l {:trigger Place(models, k), Place(models, l)} |
        k in store && l in store && Place(models, k) == Place(models, l) :: k == l)
    }

    /** No other entry is stored where this one is. */
    ghost predicate Alone(k: StoreKey)
      reads this
    {
      k.TagKey? ==> forall l {:trigger Place(models, l)} | l in store && Place(models, l) == Place(models, k) :: l == k
    }

    lemma Unshared(k: StoreKey)
      requires Mirrors() && GoodKey(models, k) && Alone(k)
      ensures forall l {:trigger Place(models, l)} | l in store && Place(models, l) == Place(models, k) :: l == k
      ensures Place(models, k).value in items <==> k in store
    {
      if !k.TagKey? {
        forall l | l in store && Place(models, l) == Place(models, k) ensures l == k {
          SamePathKind(models, k, l);
          PathInjective(models, k, l);
        }
      }
    }

    lemma TagAloneMeans(id: ConfigId, tag: string)
      requires Valid() && id.inst in models && TagAlone(view, id, tag)
      ensures Alone(TagKey(id, tag))
    {
      var k := TagKey(id, tag);
      forall l | l in store && Place(models, l) == Place(models, k) ensures l == k {
        SamePathKind(models, k, l);
        TagsShareExactly(models, id.inst, id.name, tag, l.id.name, l.tag);
        assert Shows(store, l.id, At(view, l.id));
      }
    }

    ghost predicate Valid()
      reads this
    {
      Mirrors() && ShowsAll(models, store, view) && AllWellFormed(view) && (forall id | id in view :: id.inst in models)
    }

    constructor (models: Models)
      ensures Valid() && this.models == models && items == map[] && view == map[]
    {
      this.models := models;
      items, store, view := map[], map[], map[];
    }

    // -------------------------------------------------------------- etcd

    method Get(k: StoreKey) returns (value: Option<Value>)
      requires Mirrors() && GoodKey(models, k) && Alone(k)
      ensures value == if k in store then Some(store[k]) else None
    {
      var path := ConstructKey(Segments(models, k));
      assert Place(models, k) == Some(path);
      Unshared(k);
      value := if path in items then Some(items[path]) else None;
    }

    method Put(k: StoreKey, value: Value)
      requires Mirrors() && GoodKey(models, k) && Alone(k)
      modifies this`items, this`store
      ensures Mirrors() && store == old(store)[k := value]
    {
      var path := ConstructKey(Segments(models, k));
      assert Place(models, k) == Some(path);
      Unshared(k);
      items := items[path := value];
      store := store[k := value];
    }

    method Remove(k: StoreKey)
      requires Mirrors() && GoodKey(models, k) && Alone(k)
      modifies this`items, this`store
      ensures Mirrors() && store == old(store) - {k}
    {
      var path := ConstructKey(Segments(models, k));
      assert Place(models, k) == Some(path);
      Unshared(k);
      items := items - {path};
      store := store - {k};
    }

    /** DeletePrefix on the key of a kind and a name. */
    method RemovePrefix(scope: StoreKey)
      requires Mirrors() && GoodKey(models, scope)
      modifies this`items, this`store
      ensures Mirrors()
      ensures store == Cleared(old(store), Kind(scope), scope.id)
    {
      var prefix := ConstructKey(Head(models, scope.id.inst, Kind(scope)) + [scope.id.name]);
      items := map path | path in items && !(prefix <= path) :: items[path];
      store := Cleared(store, Kind(scope), scope.id);
      forall k | Place(models, k).Some?
        ensures prefix <= Place(models, k).value <==> Kind(k) == Kind(scope) && Reached(scope.id, k)
      {
        PrefixReaches(models, scope, k);
      }
    }

    // -------------------------------------------------------------- config_backend.go

    method GetConfig(id: ConfigId) returns (config: Option<Config>)
      requires Valid() && id.inst in models
      ensures config == At(view, id).stored
    {
      assert Shows(store, id, At(view, id));
      var value := Get(DataKey(id));
      config := if value.Some? && value.value.Doc? then Some(value.value.config) else None;
    }

    /** Stores a configuration under the name it carries and returns what was there. */
    method UpdateConfig(inst: string, p: Config) returns (previous: Config)
      requires Mirrors() && inst in models
      modifies this`items, this`store
      ensures Mirrors() && store == old(store)[DataKey(ConfigId(inst, p.name)) := Doc(p)]
      ensures DataKey(ConfigId(inst, p.name)) !in old(store) ==> previous == NO_CONFIG
      ensures DataKey(ConfigId(inst, p.name)) in old(store) && old(store)[DataKey(ConfigId(inst, p.name))].Doc? ==>
        previous == old(store)[DataKey(ConfigId(inst, p.name))].config
    {
      var k := DataKey(ConfigId(inst, p.name));
      var value := Get(k);
      previous := if value.Some? && value.value.Doc? then value.value.config else NO_CONFIG;
      Put(k, Doc(p));
    }

    method GetCurrentVersion(id: ConfigId, ghost log: seq<Entry>) returns (version: nat)
      requires Mirrors() && id.inst in models && ShowsLog(store, id, log)
      ensures version == |log|
    {
      AtoiOfItoa(|log|);
      var value := Get(CounterKey(id));
      if value.None? || !value.value.Text? {
        return 0;
      }
      var index := Atoi(value.value.text);
      version := ToUint(index.value);
    }

    method GetConfigVersion(id: ConfigId, version: nat, ghost log: seq<Entry>) returns (entry: Option<Entry>)
      requires Mirrors() && id.inst in models && ShowsLog(store, id, log)
      ensures entry == if 1 <= version <= |log| then Some(log[version - 1]) else None
    {
      var value := Get(VersionKey(id, version));
      entry := if value.Some? && value.value.VersionDoc? then Some(value.value.entry) else None;
    }

    /** The counter goes up first, then the entry is written under the new number. */
    method CreateConfigVersion(inst: string, p: Config, previous: Config, action: Action, resources: seq<string>,
                               ghost log: seq<Entry>)
      returns (version: nat)
      requires Mirrors() && inst in models && (p.name == "" ==> previous.name == "")
      requires ShowsLog(store, ConfigId(inst, p.name), log) && |log| + 1 < INT64_LIMIT
      modifies this`items, this`store
      ensures Mirrors() && version == |log| + 1
      ensures store == Filed(old(store), ConfigId(inst, p.name), version, Entry(p, previous, action, resources))
    {
      var id := ConfigId(inst, if p.name != "" then p.name else previous.name);
      var counter := GetCurrentVersion(id, log);
      version := counter + 1;
      Put(CounterKey(id), Text(Itoa(version)));
      Put(VersionKey(id, version), VersionDoc(Entry(p, previous, action, resources)));
    }

    /** Versions are always deleted from the top: the entry first, then the counter goes down. */
    method DeleteConfigVersion(id: ConfigId, ghost log: seq<Entry>)
      requires Mirrors() && id.inst in models && ShowsLog(store, id, log) && |log| >= 2
      modifies this`items, this`store
      ensures Mirrors()
      ensures store == (old(store) - {VersionKey(id, |log|)})[CounterKey(id) := Text(Itoa(|log| - 1))]
    {
      var counter := GetCurrentVersion(id, log);
      Remove(VersionKey(id, counter));
      Put(CounterKey(id), Text(Itoa(counter - 1)));
    }

    /** cleanupIstanceTags: three prefix deletions. */
    method CleanupInstanceTags(id: ConfigId)
      requires Mirrors() && id.inst in models
      modifies this`items, this`store
      ensures Mirrors() && store == CleanedOf(old(store), id)
    {
      ThreeKinds(store, id);
      RemovePrefix(VersionKey(id, 0));
      RemovePrefix(CounterKey(id));
      RemovePrefix(TagKey(id, ""));
    }

    /** getConfigList: a prefix read returns the configurations of this instance, all of them and no others. */
    method List(inst: string) returns (configs: set<Config>)
      requires Valid() && inst in models
      ensures forall c :: c in configs <==> At(view, ConfigId(inst, c.name)).stored == Some(c)
    {
      var prefix := ConstructKey(Head(models, inst, "configdata"));
      configs := set path | path in items && prefix <= path && items[path].Doc? :: items[path].config;
      forall c ensures c in configs <==> At(view, ConfigId(inst, c.name)).stored == Some(c) {
        var id := ConfigId(inst, c.name);
        if c in configs {
          var path :| path in items && prefix <= path && items[path] == Doc(c);
          var k :| k in store && Place(models, k) == Some(path);
          ListIsolates(models, inst, k);
          DataMeaning(k.id);
        }
        if At(view, id).stored == Some(c) {
          DataMeaning(id);
          ListIsolates(models, inst, DataKey(id));
          assert Place(models, DataKey(id)).value in items;
        }
      }
    }

    /** The data entry of a configuration, by its name. */
    lemma DataMeaning(id: ConfigId)
      requires Valid()
      ensures At(view, id).stored.Some? ==> id.inst in models && At(view, id).stored.value.name == id.name
      ensures At(view, id).stored.Some? <==> At(view, id).log != []
      ensures id.inst in models ==> ShowsData(store, id, At(view, id).stored)
    {
      assert WellFormed(At(view, id), id.name);
      if id.inst in models {
        assert Shows(store, id, At(view, id));
      }
    }

    /** A stored configuration carries the name it is stored under. */
    lemma NamesStored()
      requires Valid()
      ensures forall id | At(view, id).stored.Some? :: At(view, id).stored.value.name == id.name
    {
      assert forall id | At(view, id).stored.Some? :: WellFormed(At(view, id), id.name);
    }

    // -------------------------------------------------------------- config.go

    method Create(inst: string, p: Config, applied: Option<seq<string>>) returns (reply: Reply)
      requires Valid()
      requires |At(view, ConfigId(inst, p.name)).log| + 1 < INT64_LIMIT
      modifies this`items, this`store, this`view
      ensures Valid() && (view, reply) == ConfigHistory.Create(old(view), models.Keys, inst, p, applied)
    {
      if p.name == "" || p.template == "" || p.values == map[] {
        return Failed(Incomplete);
      }
      if inst !in models {
        return Failed(UnknownInstance);
      }
      var existing := GetConfig(ConfigId(inst, p.name));
      if existing.Some? {
        return Done(0);
      }
      if applied.None? {
        return Failed(ApplyFailed);
      }
      var version := Store(inst, p, POST, applied.value);
      reply := Done(version);
    }

    /** The common end of Create, Update and Delete: store the configuration, then file the version. */
    method Store(inst: string, p: Config, action: Action, resources: seq<string>) returns (version: nat)
      requires Valid() && inst in models
      requires |At(view, ConfigId(inst, p.name)).log| + 1 < INT64_LIMIT
      requires action == POST ==> At(view, ConfigId(inst, p.name)).stored.None?
      modifies this`items, this`store, this`view
      ensures Valid() && version == |At(old(view), ConfigId(inst, p.name)).log| + 1
      ensures view ==
        old(view)[ConfigId(inst, p.name) := Append(At(old(view), ConfigId(inst, p.name)), p, action, resources)]
    {
      ghost var id := ConfigId(inst, p.name);
      ghost var h := At(view, id);
      assert Shows(store, id, h) && WellFormed(h, p.name);
      var previous := UpdateConfig(inst, p);
      assert previous == if h.stored.Some? then h.stored.value else NO_CONFIG;
      assert ShowsLog(store, id, h.log) by { StoredShown(old(store), id, h, p); }
      version := CreateConfigVersion(inst, p, previous, action, resources, h.log);
      AppendShown(old(store), id, h, p, action, resources);
      Settle(id, Append(h, p, action, resources), old(store), old(view));
    }

    method Update(id: ConfigId, p: Config, applied: Option<seq<string>>) returns (reply: Reply)
      requires Valid()
      requires |At(view, ConfigId(id.inst, p.name)).log| + 1 < INT64_LIMIT
      modifies this`items, this`store, this`view
      ensures Valid() && (view, reply) == ConfigHistory.Update(old(view), models.Keys, id, p, applied)
    {
      if p.values == map[] {
        return Failed(Incomplete);
      }
      if id.inst !in models {
        return Failed(UnknownInstance);
      }
      var existing := GetConfig(id);
      if existing.None? {
        return Failed(NotFound);
      }
      if applied.None? {
        return Failed(ApplyFailed);
      }
      var version := Store(id.inst, p, PUT, applied.value);
      reply := Done(version);
    }

    /** The entry of the current version. */
    method GetTop(id: ConfigId) returns (top: Option<Entry>)
      requires Valid() && id.inst in models
      ensures top == if At(view, id).log == [] then None else Some(At(view, id).log[|At(view, id).log| - 1])
    {
      ghost var h := At(view, id);
      assert Shows(store, id, h);
      var currentVersion := GetCurrentVersion(id, h.log);
      top := GetConfigVersion(id, currentVersion, h.log);
    }

    method Delete(id: ConfigId, applies: bool) returns (reply: Reply)
      requires Valid()
      requires |At(view, id).log| + 1 < INT64_LIMIT
      modifies this`items, this`store, this`view
      ensures Valid() && (view, reply) == ConfigHistory.Delete(old(view), models.Keys, id, applies)
    {
      if id.inst !in models {
        return Failed(UnknownInstance);
      }
      DataMeaning(id);
      var p := GetConfig(id);
      if p.None? {
        return Failed(NotFound);
      }
      var top := GetTop(id);
      if !applies {
        return Failed(ApplyFailed);
      }
      var version := Store(id.inst, p.value, DELETE, []);
      reply := Done(version);
    }

    method DeleteAll(id: ConfigId, applies: bool) returns (reply: Reply)
      requires Valid()
      requires |At(view, id).log| + 1 < INT64_LIMIT
      requires id.inst in models && Removable(At(view, id), if applies then {id.name} else {}) ==> Apart(view, id)
      modifies this`items, this`store, this`view
      ensures Valid() && (view, reply) == ConfigHistory.DeleteAll(old(view), models.Keys, id, applies)
    {
      if id.inst !in models {
        return Failed(NotFound);
      }
      DataMeaning(id);
      var p := GetConfig(id);
      if p.None? {
        return Failed(NotFound);
      }
      var top := GetTop(id);
      if top.value.action != DELETE {
        var deleted := Delete(id, applies);
        if deleted.Failed? {
          return deleted;
        }
        ApartAlone(old(view), id, At(view, id));
      }
      Wipe(id);
      assert view == old(view)[id := EMPTY];
      reply := Done(0);
    }

    /** deleteConfig and cleanupIstanceTags: nothing of the configuration is left, and nothing else is touched. */
    method Wipe(id: ConfigId)
      requires Valid() && id.inst in models && Apart(view, id)
      modifies this`items, this`store, this`view
      ensures Valid() && view == old(view)[id := EMPTY]
    {
      Remove(DataKey(id));
      CleanupInstanceTags(id);
      assert store == Wiped(old(store), id);
      WipeShown(models, old(store), view, id);
      view := view[id := EMPTY];
    }

    /**
     * Cleanup of an instance that is being deleted: every listed configuration is deleted, whatever becomes of the
     * others.
     */
    method Cleanup(inst: string, accepted: set<string>) returns (reply: Reply)
      requires Valid()
      requires forall id :: |At(view, id).log| + 1 < INT64_LIMIT
      requires forall id: ConfigId {:trigger At(view, id)} | id.inst == inst && Removable(At(view, id), accepted) ::
        Apart(view, id)
      modifies this`items, this`store, this`view
      ensures Valid() && reply == if inst in models then Done(0) else Failed(UnknownInstance)
      ensures inst !in models ==> view == old(view)
      ensures inst in models ==> CleanedUp(old(view), view, inst, accepted, {})
    {
      if inst !in models {
        return Failed(UnknownInstance);
      }
      var configs := List(inst);
      var remaining := configs;
      CleanupStarts(inst, accepted, configs);
      while remaining != {}
        invariant Valid() && CleanedUp(old(view), view, inst, accepted, remaining)
        invariant forall c | c in remaining :: At(old(view), ConfigId(inst, c.name)).stored == Some(c)
      {
        var config :| config in remaining;
        ghost var before := view;
        assert CleanedAt(old(view), view, ConfigId(inst, config.name), inst, accepted, remaining);
        if Removable(At(view, ConfigId(inst, config.name)), accepted) {
          ApartStays(old(view), view, ConfigId(inst, config.name), inst, accepted, remaining);
        }
        DeleteListed(inst, config, accepted);
        CleanupContinues(old(view), before, view, inst, accepted, remaining, config);
        remaining := remaining - {config};
      }
      reply := Done(0);
    }

    lemma CleanupStarts(inst: string, accepted: set<string>, configs: set<Config>)
      requires Valid()
      requires forall c :: c in configs <==> At(view, ConfigId(inst, c.name)).stored == Some(c)
      ensures CleanedUp(view, view, inst, accepted, configs)
    {
      forall id: ConfigId ensures CleanedAt(view, view, id, inst, accepted, configs) {
        NamesStored();
        assert id.inst == inst && At(view, id).stored.Some? ==> id == ConfigId(inst, At(view, id).stored.value.name);
      }
    }

    lemma ApartStays(was: State, now: State, id: ConfigId, inst: string, accepted: set<string>, remaining: set<Config>)
      requires CleanedUp(was, now, inst, accepted, remaining) && Apart(was, id)
      ensures Apart(now, id)
    {
      forall other: ConfigId | other.inst == id.inst && other != id ensures Clear(At(now, other), id.name, other.name) {
        assert CleanedAt(was, now, other, inst, accepted, remaining);
        assert Clear(At(was, other), id.name, other.name);
      }
    }

    method DeleteListed(inst: string, config: Config, accepted: set<string>)
      requires Valid() && inst in models && At(view, ConfigId(inst, config.name)).stored == Some(config)
      requires |At(view, ConfigId(inst, config.name)).log| + 1 < INT64_LIMIT
      requires Removable(At(view, ConfigId(inst, config.name)), accepted) ==> Apart(view, ConfigId(inst, config.name))
      modifies this`items, this`store, this`view
      ensures Valid()
      ensures view == if Removable(At(old(view), ConfigId(inst, config.name)), accepted)
                      then old(view)[ConfigId(inst, config.name) := EMPTY] else old(view)
    {
      var id := ConfigId(inst, config.name);
      DataMeaning(id);
      var _ := DeleteAll(id, config.name in accepted);
    }

    /** ApplyAllConfig: every version from the first on, up to one that the cluster refuses. */
    method ApplyAllConfig(id: ConfigId, ok: set<nat>) returns (reply: Reply, applied: seq<Entry>)
      requires Valid()
      ensures applied <= At(view, id).log
      ensures forall i | 1 <= i <= |applied| :: i in ok
      ensures reply == Done(0) <==> id.inst in models && applied == At(view, id).log
      ensures reply.Failed? ==> id.inst !in models || |applied| + 1 !in ok
      ensures applied != [] && reply == Done(0) && Consistent(At(view, id)) ==>
        At(view, id).stored == Some(applied[|applied| - 1].current)
    {
      applied := [];
      if id.inst !in models {
        return Failed(UnknownInstance), applied;
      }
      ghost var h := At(view, id);
      assert Shows(store, id, h);
      var currentVersion := GetCurrentVersion(id, h.log);
      for i := 1 to currentVersion + 1
        invariant applied == h.log[..i - 1]
        invariant forall j | 1 <= j < i :: j in ok
      {
        var entry := GetConfigVersion(id, i, h.log);
        if i !in ok {
          return Failed(ApplyFailed), applied;
        }
        applied := applied + [entry.value];
      }
      reply := Done(0);
    }

    method Tagit(id: ConfigId, tag: string) returns (reply: Reply)
      requires Valid() && TagAlone(view, id, tag)
      modifies this`items, this`store, this`view
      ensures Valid() && (view, reply) == ConfigHistory.Tagit(old(view), models.Keys, id, tag)
    {
      if id.inst !in models {
        return Failed(UnknownInstance);
      }
      ghost var h := At(view, id);
      assert Shows(store, id, h) && WellFormed(h, id.name);
      var currentVersion := GetCurrentVersion(id, h.log);
      TagAloneMeans(id, tag);
      Put(TagKey(id, tag), Text(Itoa(currentVersion)));
      Settle(id, h.(tags := h.tags[tag := |h.log|]), old(store), old(view));
      reply := Done(0);
    }

    method GetTagVersion(id: ConfigId, tag: string) returns (version: Option<string>)
      requires Valid() && TagAlone(view, id, tag)
      ensures version ==
        if id.inst in models && tag in At(view, id).tags then Some(Itoa(At(view, id).tags[tag])) else None
    {
      if id.inst !in models {
        return None;
      }
      assert Shows(store, id, At(view, id));
      TagAloneMeans(id, tag);
      var value := Get(TagKey(id, tag));
      version := if value.Some? && value.value.Text? then Some(value.value.text) else None;
    }

    /** Both loops of Rollback: reinstate from the top down, then delete the rolled back versions. */
    method Rollback(id: ConfigId, tag: string, version: string, ok: set<nat>) returns (reply: Reply)
      requires Valid() && (tag != "" ==> TagAlone(view, id, tag))
      modifies this`items, this`store, this`view
      ensures Valid() && (view, reply) == ConfigHistory.Rollback(old(view), models.Keys, id, tag, version, ok)
      ensures tag == "" && id.inst in models && Atoi(version).Some? ==>
        var h, r := At(old(view), id), Atoi(version).value;
        1 <= r < |h.log| && (forall j | r < j <= |h.log| :: j in ok) ==>
          reply == Done(0) && view == old(view)[id := History(Some(h.log[r].previous), h.log[..r], h.tags)]
    {
      var reqVersion := version;
      ghost var h := At(view, id);
      if tag != "" {
        var tagged := GetTagVersion(id, tag);
        if tagged.None? {
          return Failed(BadTag);
        }
        reqVersion := tagged.value;
        assert Shows(store, id, h);
        AtoiOfItoa(h.tags[tag]);
      } else if version == "" {
        return Failed(NoIndex);
      }
      var index := Atoi(reqVersion);
      if index.None? {
        return Failed(BadIndex);
      }
      var rollbackIndex := ToUint(index.value);
      if id.inst !in models {
        return Failed(UnknownInstance);
      }
      assert Shows(store, id, h) && WellFormed(h, id.name);
      if tag == "" {
        RollbackToVersion(view, models.Keys, id, version, ok);
      }
      var currentVersion := GetCurrentVersion(id, h.log);
      if rollbackIndex < 1 && rollbackIndex >= currentVersion {
        return Done(0);
      }
      reply := UnwindAndCut(id, currentVersion, rollbackIndex, ok);
    }

    method UnwindAndCut(id: ConfigId, currentVersion: nat, rollbackIndex: nat, ok: set<nat>) returns (reply: Reply)
      requires Valid() && id.inst in models && currentVersion == |At(view, id).log|
      modifies this`items, this`store, this`view
      ensures Valid() && reply == RollbackTo(At(old(view), id), rollbackIndex, ok).1
      ensures view == if RollbackTo(At(old(view), id), rollbackIndex, ok).0 == At(old(view), id) then old(view)
                      else old(view)[id := RollbackTo(At(old(view), id), rollbackIndex, ok).0]
    {
      ghost var h := At(view, id);
      assert Shows(store, id, h) && WellFormed(h, id.name);
      ghost var now;
      reply, now := UnwindLoop(id, currentVersion, rollbackIndex, ok, h);
      UnwindNames(h, |h.log|, rollbackIndex, ok, id.name);
      if reply != Done(0) {
        SettleIfChanged(id, now, old(store), old(view));
        return;
      }
      RollbackSucceedsExactly(h, rollbackIndex, ok);
      if rollbackIndex < currentVersion {
        CutLoop(id, currentVersion, rollbackIndex, now);
        now := now.(log := h.log[..rollbackIndex]);
      }
      SettleIfChanged(id, now, old(store), old(view));
    }

    /** The first loop: every version above the target has its predecessor put back into the store. */
    method UnwindLoop(id: ConfigId, currentVersion: nat, rollbackIndex: nat, ok: set<nat>, ghost h: History)
      returns (reply: Reply, ghost now: History)
      requires Mirrors() && id.inst in models && currentVersion == |h.log|
      requires Shows(store, id, h) && WellFormed(h, id.name)
      modifies this`items, this`store
      ensures Mirrors() && Shows(store, id, now) && SameElsewhere(old(store), store, id)
      ensures now == h.(stored := Unwind(h, |h.log|, rollbackIndex, ok).0)
      ensures reply ==
        match Unwind(h, |h.log|, rollbackIndex, ok).1 case None => Done(0) case Some(error) => Failed(error)
    {
      now := h;
      var i: nat := currentVersion;
      while i > rollbackIndex
        invariant i <= currentVersion && now == h.(stored := now.stored)
        invariant Unwind(now, i, rollbackIndex, ok) == Unwind(h, currentVersion, rollbackIndex, ok)
        invariant Mirrors() && Shows(store, id, now) && SameElsewhere(old(store), store, id)
      {
        var error := UnwindOne(id, i, ok, h, now);
        if error.Some? {
          return Failed(error.value), now;
        }
        now := now.(stored := Some(h.log[i - 1].previous));
        i := i - 1;
      }
      reply := Done(0);
    }

    /** Version i is undone: what it replaced is stored, unless there is no version below or the cluster refuses. */
    method UnwindOne(id: ConfigId, i: nat, ok: set<nat>, ghost h: History, ghost now: History)
      returns (error: Option<Error>)
      requires Mirrors() && id.inst in models && 1 <= i <= |h.log| && now == h.(stored := now.stored)
      requires Shows(store, id, now) && WellFormed(h, id.name)
      modifies this`items, this`store
      ensures error == if i == 1 then Some(VersionMissing) else if i !in ok then Some(ApplyFailed) else None
      ensures error.Some? ==> items == old(items) && store == old(store)
      ensures error.None? ==> Shows(store, id, now.(stored := Some(h.log[i - 1].previous)))
      ensures Mirrors() && SameElsewhere(old(store), store, id)
    {
      var entry := GetConfigVersion(id, i, h.log);
      var below := GetConfigVersion(id, i - 1, h.log);
      if below.None? {
        return Some(VersionMissing);
      }
      if i !in ok {
        return Some(ApplyFailed);
      }
      assert entry.value == h.log[i - 1] && entry.value.previous.name == id.name;
      Reinstate(id, entry.value.previous, now);
      error := None;
    }

    method Reinstate(id: ConfigId, p: Config, ghost now: History)
      requires Mirrors() && id.inst in models && p.name == id.name && Shows(store, id, now)
      modifies this`items, this`store
      ensures Mirrors() && Shows(store, id, now.(stored := Some(p))) && SameElsewhere(old(store), store, id)
    {
      StoredShown(store, id, now, p);
      var _ := UpdateConfig(id.inst, p);
    }

    /** The second loop: as many versions are deleted from the top as were undone. */
    method CutLoop(id: ConfigId, currentVersion: nat, rollbackIndex: nat, ghost h: History)
      requires Mirrors() && id.inst in models && currentVersion == |h.log| && 1 <= rollbackIndex <= currentVersion
      requires Shows(store, id, h)
      modifies this`items, this`store
      ensures Mirrors() && Shows(store, id, h.(log := h.log[..rollbackIndex])) && SameElsewhere(old(store), store, id)
    {
      var i := currentVersion;
      assert h.log[..i] == h.log;
      while i > rollbackIndex
        invariant rollbackIndex <= i <= currentVersion
        invariant Mirrors() && Shows(store, id, h.(log := h.log[..i])) && SameElsewhere(old(store), store, id)
      {
        assert h.log[..i][..i - 1] == h.log[..i - 1];
        CutOne(id, h.(log := h.log[..i]));
        i := i - 1;
      }
    }

    method CutOne(id: ConfigId, ghost h: History)
      requires Mirrors() && id.inst in models && Shows(store, id, h) && |h.log| >= 2
      modifies this`items, this`store
      ensures Mirrors() && Shows(store, id, h.(log := h.log[..|h.log| - 1])) && SameElsewhere(old(store), store, id)
    {
      CutShown(store, id, h);
      DeleteConfigVersion(id, h.log);
    }

    ghost method SettleIfChanged(id: ConfigId, h: History, before: map<StoreKey, Value>, was: State)
      requires Mirrors() && ShowsAll(models, before, was) && AllWellFormed(was)
      requires SameElsewhere(before, store, id) && Shows(store, id, h) && WellFormed(h, id.name)
      requires view == was && id.inst in models && (forall other | other in was :: other.inst in models)
      modifies this`view
      ensures Valid() && view == if h == At(was, id) then was else was[id := h]
    {
      Settle(id, h, before, was);
      if h == At(was, id) {
        view := was;
        Isolation(models, before, store, was, was, id);
      }
    }

    /** The bookkeeping at the end of an operation on one configuration. */
    ghost method Settle(id: ConfigId, h: History, before: map<StoreKey, Value>, was: State)
      requires Mirrors() && ShowsAll(models, before, was) && AllWellFormed(was)
      requires SameElsewhere(before, store, id) && Shows(store, id, h) && WellFormed(h, id.name)
      requires view == was && id.inst in models && (forall other | other in was :: other.inst in models)
      modifies this`view
      ensures Valid() && view == was[id := h]
    {
      view := view[id := h];
      Isolation(models, before, store, was, view, id);
      forall other ensures WellFormed(At(view, other), other.name) {
        assert WellFormed(At(was, other), other.name);
      }
    }
  }
}
