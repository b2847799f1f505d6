/**
 * The two sorts of the plugin order by a number and then by name: hooks by weight (hook_sorter.go), replica sets by
 * creation time (deploymentutil.go). Whatever sort.Sort does, its result is determined.
 */
module Ordering {
  import opened Wrappers

  datatype Item<+T> = Item(rank: int, name: string, payload: T)

  /** Go's < on strings. */
  predicate NameBefore(a: string, b: string) {
    b != [] && (a == [] || a[0] < b[0] || (a[0] == b[0] && NameBefore(a[1..], b[1..])))
  }

  /** The Less method of both sorters. */
  predicate Less<T>(a: Item<T>, b: Item<T>) {
    if a.rank == b.rank then NameBefore(a.name, b.name) else a.rank < b.rank
  }

  lemma {:induction false} NamesCompare(a: string, b: string)
    ensures a == b || NameBefore(a, b) || NameBefore(b, a)
    ensures !(NameBefore(a, b) && NameBefore(b, a))
  {
    if a != [] && b != [] {
      NamesCompare(a[1..], b[1..]);
      assert a[0] == b[0] && a[1..] == b[1..] ==> a == b by {
        assert a == [a[0]] + a[1..] && b == [b[0]] + b[1..];
      }
    }
  }

  lemma {:induction false} NamesTransitive(a: string, b: string, c: string)
    requires !NameBefore(b, a) && !NameBefore(c, b)
    ensures !NameBefore(c, a)
  {
    if a != [] && c != [] && c[0] == a[0] {
      NamesTransitive(a[1..], b[1..], c[1..]);
    }
  }

  /** The names agree before position k, where the first one ends or has the lower character. */
  predicate DiffersAt(a: string, b: string, k: int) {
    0 <= k <= |a| && k < |b| && a[..k] == b[..k] && (k == |a| || a[k] < b[k])
  }

  /** The first character in which two names differ decides, and a beginning comes before what it begins. */
  lemma NamesByFirstDifference(a: string, b: string)
    ensures NameBefore(a, b) <==> exists k :: DiffersAt(a, b, k)
  {
    if NameBefore(a, b) {
      var k := FirstDifference(a, b);
    }
    if k :| DiffersAt(a, b, k) {
      DifferenceDecides(a, b, k);
    }
  }

  lemma {:induction false} FirstDifference(a: string, b: string) returns (k: nat)
    requires NameBefore(a, b)
    ensures DiffersAt(a, b, k)
  {
    if a == [] || a[0] < b[0] {
      k := 0;
    } else {
      var l := FirstDifference(a[1..], b[1..]);
      k := l + 1;
      assert a[..k] == [a[0]] + a[1..][..l] && b[..k] == [b[0]] + b[1..][..l];
    }
  }

  lemma {:induction false} DifferenceDecides(a: string, b: string, k: nat)
    requires DiffersAt(a, b, k)
    ensures NameBefore(a, b)
  {
    if k > 0 {
      assert a[..k][0] == b[..k][0];
      assert a[1..][..k - 1] == a[..k][1..] && b[1..][..k - 1] == b[..k][1..];
      DifferenceDecides(a[1..], b[1..], k - 1);
    }
  }

  /** The lower number comes first; among equal numbers the names are in the order of strings. */
  lemma InOrderMeaning<T>(s: seq<Item<T>>)
    requires InOrder(s)
    ensures forall i, j | 0 <= i < j < |s| :: s[i].rank <= s[j].rank
    ensures forall i, j | 0 <= i < j < |s| && s[i].rank == s[j].rank ::
      s[i].name == s[j].name || exists k :: DiffersAt(s[i].name, s[j].name, k)
  {
    forall i, j | 0 <= i < j < |s| ensures s[i].rank <= s[j].rank {
      assert !Less(s[j], s[i]);
    }
    forall i, j | 0 <= i < j < |s| && s[i].rank == s[j].rank && s[i].name != s[j].name
      ensures exists k :: DiffersAt(s[i].name, s[j].name, k)
    {
      assert !Less(s[j], s[i]);
      NamesCompare(s[i].name, s[j].name);
      NamesByFirstDifference(s[i].name, s[j].name);
    }
  }

  /** "Not after" is transitive. */
  lemma NotAfterTransitive<T>(a: Item<T>, b: Item<T>, c: Item<T>)
    requires !Less(b, a) && !Less(c, b)
    ensures !Less(c, a)
  {
    if a.rank == b.rank == c.rank {
      NamesTransitive(a.name, b.name, c.name);
    }
  }

  /** What sort.Sort guarantees of the order of its result. */
  ghost predicate InOrder<T>(s: seq<Item<T>>) {
    forall i, j | 0 <= i < j < |s| :: !Less(s[j], s[i])
  }

  /** Items with the same number and name are the same item. */
  ghost predicate Distinguished<T>(s: seq<Item<T>>) {
    forall i, j | 0 <= i < |s| && 0 <= j < |s| && s[i].rank == s[j].rank && s[i].name == s[j].name :: s[i] == s[j]
  }

  lemma FirstIsLeast<T>(s: seq<Item<T>>, x: Item<T>)
    requires InOrder(s) && x in s
    ensures !Less(x, s[0])
  {
    var i :| 0 <= i < |s| && s[i] == x;
    NamesCompare(x.name, x.name);
  }

  lemma SameFirst<T>(s: seq<Item<T>>, t: seq<Item<T>>)
    requires multiset(s) == multiset(t) && InOrder(s) && InOrder(t) && Distinguished(s) && s != [] && t != []
    ensures s[0] == t[0]
  {
    assert s[0] in multiset(t) && t[0] in multiset(s);
    FirstIsLeast(t, s[0]);
    FirstIsLeast(s, t[0]);
    NamesCompare(s[0].name, t[0].name);
  }

  lemma TailItems<T>(s: seq<Item<T>>)
    requires s != []
    ensures multiset(s[1..]) == multiset(s) - multiset{s[0]}
  {
    assert s == [s[0]] + s[1..];
    assert multiset(s) == multiset{s[0]} + multiset(s[1..]);
  }

  lemma TailInOrder<T>(s: seq<Item<T>>)
    requires s != []
    ensures InOrder(s) ==> InOrder(s[1..])
    ensures Distinguished(s) ==> Distinguished(s[1..])
  {
    assert forall i | 0 <= i < |s| - 1 :: s[1..][i] == s[i + 1];
  }

  lemma SameLength<T>(s: seq<Item<T>>, t: seq<Item<T>>)
    requires multiset(s) == multiset(t)
    ensures |s| == |t|
  {
    assert |s| == |multiset(s)| == |multiset(t)| == |t|;
  }

  lemma TailsMatch<T>(s: seq<Item<T>>, t: seq<Item<T>>)
    requires multiset(s) == multiset(t) && s != [] && t != [] && s[0] == t[0]
    ensures multiset(s[1..]) == multiset(t[1..])
    ensures s[1..] == t[1..] ==> s == t
  {
    TailItems(s);
    TailItems(t);
    assert s == [s[0]] + s[1..] && t == [t[0]] + t[1..];
  }

  /** Two sorted arrangements of the same items are the same sequence. */
  lemma {:induction false} SortIsCanonical<T>(s: seq<Item<T>>, t: seq<Item<T>>)
    requires multiset(s) == multiset(t) && InOrder(s) && InOrder(t) && Distinguished(s)
    ensures s == t
    decreases |s|
  {
    SameLength(s, t);
    if s != [] {
      assert s[0] == t[0] by { SameFirst(s, t); }
      TailsMatch(s, t);
      assert InOrder(s[1..]) && Distinguished(s[1..]) && InOrder(t[1..]) by {
        TailInOrder(s);
        TailInOrder(t);
      }
      SortIsCanonical(s[1..], t[1..]);
    }
  }

  /** One way to sort. */
  function Insert<T>(x: Item<T>, s: seq<Item<T>>): seq<Item<T>> {
    if s == [] then [x]
    else if !Less(s[0], x) then [x] + s
    else [s[0]] + Insert(x, s[1..])
  }

  function Sorted<T>(s: seq<Item<T>>): seq<Item<T>> {
    if s == [] then [] else Insert(s[0], Sorted(s[1..]))
  }

  lemma PrependInOrder<T>(x: Item<T>, s: seq<Item<T>>)
    requires InOrder(s) && forall y | y in s :: !Less(y, x)
    ensures InOrder([x] + s)
  {
    var r := [x] + s;
    forall i, j | 0 <= i < j < |r| ensures !Less(r[j], r[i]) {
      assert r[j] == s[j - 1];
      if i > 0 {
        assert r[i] == s[i - 1];
      }
    }
  }

  lemma {:induction false} InsertSorts<T>(x: Item<T>, s: seq<Item<T>>)
    requires InOrder(s)
    ensures InOrder(Insert(x, s)) && multiset(Insert(x, s)) == multiset(s) + multiset{x}
  {
    if s != [] && !Less(s[0], x) {
      forall y | y in s ensures !Less(y, x) {
        FirstIsLeast(s, y);
        NotAfterTransitive(x, s[0], y);
      }
      PrependInOrder(x, s);
    } else if s != [] {
      assert s == [s[0]] + s[1..];
      InsertSorts(x, s[1..]);
      var rest := Insert(x, s[1..]);
      forall y | y in rest ensures !Less(y, s[0]) {
        assert y in multiset(rest);
        if y == x {
          NamesCompare(x.name, s[0].name);
        } else {
          assert y in s[1..];
          FirstIsLeast(s, y);
        }
      }
      PrependInOrder(s[0], rest);
    }
  }

  lemma {:induction false} SortedSorts<T>(s: seq<Item<T>>)
    ensures InOrder(Sorted(s)) && multiset(Sorted(s)) == multiset(s)
  {
    if s != [] {
      assert s == [s[0]] + s[1..];
      SortedSorts(s[1..]);
      InsertSorts(s[0], Sorted(s[1..]));
    }
  }

  // ---------------------------------------------------------------- hooks

  datatype HookEvent = PRE_INSTALL | POST_INSTALL | PRE_DELETE | POST_DELETE | TEST

  /** A hook is its weight, its name and the events it is declared for. */
  type Hook = Item<seq<HookEvent>>

  function Declared(h: Hook, events: seq<HookEvent>, event: HookEvent): seq<Hook> {
    if events == [] then [] else (if events[0] == event then [h] else []) + Declared(h, events[1..], event)
  }

  function ByEvent(hooks: seq<Hook>, event: HookEvent): seq<Hook> {
    if hooks == [] then [] else Declared(hooks[0], hooks[0].payload, event) + ByEvent(hooks[1..], event)
  }

  function Times<T(==)>(s: seq<T>, x: T): nat {
    if s == [] then 0 else (if s[0] == x then 1 else 0) + Times(s[1..], x)
  }

  lemma {:induction false} TimesIsMultiplicity<T>(s: seq<T>, x: T)
    ensures multiset(s)[x] == Times(s, x)
    ensures x in s <==> Times(s, x) > 0
  {
    if s != [] {
      TimesIsMultiplicity(s[1..], x);
      assert s == [s[0]] + s[1..];
      assert multiset(s) == multiset{s[0]} + multiset(s[1..]);
    }
  }

  lemma {:induction false} TimesAppend<T>(s: seq<T>, t: seq<T>, x: T)
    ensures Times(s + t, x) == Times(s, x) + Times(t, x)
  {
    if s == [] {
      assert s + t == t;
    } else {
      assert (s + t)[1..] == s[1..] + t;
      TimesAppend(s[1..], t, x);
    }
  }

  lemma {:induction false} DeclaredExactly(h: Hook, events: seq<HookEvent>, event: HookEvent)
    ensures |Declared(h, events, event)| == Times(events, event)
    ensures forall i | 0 <= i < |Declared(h, events, event)| :: Declared(h, events, event)[i] == h
  {
    if events != [] {
      DeclaredExactly(h, events[1..], event);
    }
  }

  lemma {:induction false} DeclaredTimes(h: Hook, events: seq<HookEvent>, event: HookEvent, x: Hook)
    ensures Times(Declared(h, events, event), x) == if x == h then Times(events, event) else 0
  {
    if events != [] {
      DeclaredTimes(h, events[1..], event, x);
      TimesAppend(if events[0] == event then [h] else [], Declared(h, events[1..], event), x);
    }
  }

  lemma {:induction false} ByEventTimes(hooks: seq<Hook>, event: HookEvent, h: Hook)
    ensures Times(ByEvent(hooks, event), h) == Times(hooks, h) * Times(h.payload, event)
  {
    if hooks != [] {
      var n, m := Times(hooks[1..], h), Times(h.payload, event);
      assert Times(ByEvent(hooks[1..], event), h) == n * m by { ByEventTimes(hooks[1..], event, h); }
      assert Times(ByEvent(hooks, event), h) == (if hooks[0] == h then m else 0) + n * m by {
        DeclaredTimes(hooks[0], hooks[0].payload, event, h);
        TimesAppend(Declared(hooks[0], hooks[0].payload, event), ByEvent(hooks[1..], event), h);
      }
      OneMore(n, m, Times(hooks, h));
    }
  }

  lemma OneMore(n: nat, m: nat, k: nat)
    ensures k == n + 1 ==> k * m == m + n * m
    ensures k == n ==> k * m == n * m
  {
  }

  /** A hook is selected as often as the chart lists it, times the number of times it declares the event. */
  lemma ByEventExactly(hooks: seq<Hook>, event: HookEvent, h: Hook)
    ensures multiset(ByEvent(hooks, event))[h] == multiset(hooks)[h] * multiset(h.payload)[event]
    ensures h in ByEvent(hooks, event) <==> h in hooks && event in h.payload
  {
    ByEventTimes(hooks, event, h);
    TimesIsMultiplicity(ByEvent(hooks, event), h);
    TimesIsMultiplicity(hooks, h);
    TimesIsMultiplicity(h.payload, event);
    Positive(Times(hooks, h), Times(h.payload, event));
  }

  lemma Positive(n: nat, m: nat)
    ensures n * m > 0 <==> n > 0 && m > 0
  {
    if n > 0 && m > 0 {
      assert n * m >= m;
    }
  }

  /** Where each selected hook stands in the chart's list. */
  ghost predicate KeepsOrder(hooks: seq<Hook>, selected: seq<Hook>, origin: seq<nat>) {
    && |origin| == |selected|
    && (forall i | 0 <= i < |selected| :: origin[i] < |hooks| && selected[i] == hooks[origin[i]])
    && (forall i, j | 0 <= i < j < |selected| :: origin[i] <= origin[j])
  }

  /** Selecting keeps the order of the list. */
  lemma {:induction false} ByEventKeepsOrder(hooks: seq<Hook>, event: HookEvent) returns (origin: seq<nat>)
    ensures KeepsOrder(hooks, ByEvent(hooks, event), origin)
  {
    if hooks == [] {
      origin := [];
    } else {
      var first := Declared(hooks[0], hooks[0].payload, event);
      DeclaredExactly(hooks[0], hooks[0].payload, event);
      var rest := ByEventKeepsOrder(hooks[1..], event);
      origin := OrderGoesOn(hooks, first, ByEvent(hooks[1..], event), rest);
    }
  }

  lemma OrderGoesOn(hooks: seq<Hook>, first: seq<Hook>, selected: seq<Hook>, rest: seq<nat>) returns (origin: seq<nat>)
    requires hooks != [] && (forall i | 0 <= i < |first| :: first[i] == hooks[0])
    requires KeepsOrder(hooks[1..], selected, rest)
    ensures KeepsOrder(hooks, first + selected, origin)
  {
    origin := seq(|first| + |rest|, i requires 0 <= i < |first| + |rest| =>
      if i < |first| then 0 else rest[i - |first|] + 1);
    forall i | 0 <= i < |origin| ensures origin[i] < |hooks| && (first + selected)[i] == hooks[origin[i]] {
      if i >= |first| {
        assert hooks[1..][rest[i - |first|]] == hooks[origin[i]];
      }
    }
  }

  /** getHookByEvent. `origin` says where in the list each selected hook stands. */
  method GetHookByEvent(hs: seq<Hook>, event: HookEvent) returns (hooks: seq<Hook>, ghost origin: seq<nat>)
    ensures hooks == ByEvent(hs, event)
    ensures forall h :: h in hooks <==> h in hs && event in h.payload
    ensures forall h :: multiset(hooks)[h] == multiset(hs)[h] * multiset(h.payload)[event]
    ensures KeepsOrder(hs, hooks, origin)
  {
    hooks := CollectByEvent(hs, event);
    forall h
      ensures h in hooks <==> h in hs && event in h.payload
      ensures multiset(hooks)[h] == multiset(hs)[h] * multiset(h.payload)[event]
    {
      ByEventExactly(hs, event, h);
    }
    origin := ByEventKeepsOrder(hs, event);
  }

  /** Its outer loop. */
  method CollectByEvent(hs: seq<Hook>, event: HookEvent) returns (hooks: seq<Hook>)
    ensures hooks == ByEvent(hs, event)
  {
    hooks := [];
    for i := 0 to |hs|
      invariant hooks + ByEvent(hs[i..], event) == ByEvent(hs, event)
    {
      assert hs[i..][1..] == hs[i + 1..];
      var declared := DeclaredFor(hs[i], event);
      hooks := hooks + declared;
    }
  }

  /** The inner loop: the hook once for each time it declares the event. */
  method DeclaredFor(h: Hook, event: HookEvent) returns (hooks: seq<Hook>)
    ensures hooks == Declared(h, h.payload, event)
  {
    hooks := [];
    for j := 0 to |h.payload|
      invariant hooks + Declared(h, h.payload[j..], event) == Declared(h, h.payload, event)
    {
      assert h.payload[j..][1..] == h.payload[j + 1..];
      if h.payload[j] == event {
        hooks := hooks + [h];
      }
    }
  }

  /** The hooks of an event in the order they are executed. */
  function Execution(hooks: seq<Hook>, event: HookEvent): seq<Hook> {
    Sorted(ByEvent(hooks, event))
  }

  lemma {:induction false} ByEventAppend(a: seq<Hook>, b: seq<Hook>, event: HookEvent)
    ensures ByEvent(a + b, event) == ByEvent(a, event) + ByEvent(b, event)
  {
    if a == [] {
      assert a + b == b;
    } else {
      assert (a + b)[1..] == a[1..] + b;
      ByEventAppend(a[1..], b, event);
    }
  }

  lemma ByEventExtract(t: seq<Hook>, i: nat, event: HookEvent)
    requires i < |t|
    ensures multiset(t) == multiset(t[..i] + t[i + 1..]) + multiset{t[i]}
    ensures multiset(ByEvent(t, event)) ==
            multiset(ByEvent(t[..i] + t[i + 1..], event)) + multiset(Declared(t[i], t[i].payload, event))
  {
    var tail := [t[i]] + t[i + 1..];
    assert t == t[..i] + tail && tail[1..] == t[i + 1..];
    assert multiset(t) == multiset(t[..i]) + (multiset{t[i]} + multiset(t[i + 1..]));
    assert ByEvent(t, event) ==
      ByEvent(t[..i], event) + (Declared(t[i], t[i].payload, event) + ByEvent(t[i + 1..], event)) by {
      ByEventAppend(t[..i], tail, event);
    }
    ByEventAppend(t[..i], t[i + 1..], event);
  }

  lemma {:induction false} ByEventPermutes(s: seq<Hook>, t: seq<Hook>, event: HookEvent)
    requires multiset(s) == multiset(t)
    ensures multiset(ByEvent(s, event)) == multiset(ByEvent(t, event))
    decreases |s|
  {
    if s == [] {
      assert t == [] by {
        assert |t| == |multiset(t)| == |multiset(s)|;
      }
    } else {
      var i := Position(t, s[0]);
      var rest, tail := t[..i] + t[i + 1..], s[..0] + s[1..];
      var d := multiset(Declared(s[0], s[0].payload, event));
      assert multiset(tail) == multiset(rest) by {
        ByEventExtract(t, i, event);
        ByEventExtract(s, 0, event);
        Cancel(tail, rest, s[0]);
      }
      ByEventPermutes(tail, rest, event);
      assert multiset(ByEvent(t, event)) == multiset(ByEvent(rest, event)) + d by { ByEventExtract(t, i, event); }
      assert multiset(ByEvent(s, event)) == multiset(ByEvent(tail, event)) + d by { ByEventExtract(s, 0, event); }
    }
  }

  lemma Position(t: seq<Hook>, h: Hook) returns (i: nat)
    requires h in multiset(t)
    ensures i < |t| && t[i] == h
  {
    i :| i < |t| && t[i] == h;
  }

  lemma Cancel(a: seq<Hook>, b: seq<Hook>, h: Hook)
    requires multiset(a) + multiset{h} == multiset(b) + multiset{h}
    ensures multiset(a) == multiset(b)
  {
    assert multiset(a) == (multiset(a) + multiset{h}) - multiset{h};
    assert multiset(b) == (multiset(b) + multiset{h}) - multiset{h};
  }

  lemma SameMembers(s: seq<Hook>, t: seq<Hook>, h: Hook)
    requires multiset(s) == multiset(t)
    ensures h in s <==> h in t
  {
    assert h in s <==> h in multiset(s);
    assert h in t <==> h in multiset(t);
  }

  /** What is executed for an event: the hooks that declare it, by weight and then by name. */
  lemma ExecutionExactly(hooks: seq<Hook>, event: HookEvent)
    ensures forall h :: h in Execution(hooks, event) <==> h in hooks && event in h.payload
    ensures forall h :: multiset(Execution(hooks, event))[h] == multiset(hooks)[h] * multiset(h.payload)[event]
    ensures forall i, j | 0 <= i < j < |Execution(hooks, event)| ::
      Execution(hooks, event)[i].rank <= Execution(hooks, event)[j].rank
  {
    var sorted := Execution(hooks, event);
    SortedSorts(ByEvent(hooks, event));
    InOrderMeaning(sorted);
    forall h
      ensures multiset(sorted)[h] == multiset(hooks)[h] * multiset(h.payload)[event]
      ensures h in sorted <==> h in hooks && event in h.payload
    {
      ByEventExactly(hooks, event, h);
      SameMembers(sorted, ByEvent(hooks, event), h);
    }
  }

  /**
   * Positions survive a restart: re-resolving the chart may list the hooks in any order, but filtering by event and
   * sorting, by any algorithm, gives the one sequence the progress counter refers to.
   */
  lemma ExecutionIsCanonical(before: seq<Hook>, again: seq<Hook>, event: HookEvent, sorted: seq<Hook>)
    requires multiset(before) == multiset(again) && Distinguished(before)
    requires InOrder(sorted) && multiset(sorted) == multiset(ByEvent(again, event))
    ensures sorted == Execution(before, event)
  {
    ByEventPermutes(before, again, event);
    SortedSorts(ByEvent(before, event));
    var first := Execution(before, event);
    forall i, j | 0 <= i < |first| &&
      0 <= j < |first| && first[i].rank == first[j].rank && first[i].name == first[j].name
      ensures first[i] == first[j]
    {
      assert first[i] in multiset(ByEvent(before, event)) && first[j] in multiset(ByEvent(before, event));
      ByEventExactly(before, event, first[i]);
      ByEventExactly(before, event, first[j]);
    }
    SortIsCanonical(first, sorted);
  }

  // ---------------------------------------------------------------- replica sets

  datatype Template = Template(labels: map<string, string>, spec: string)

  type ReplicaSet = Item<Template>

  predicate EqualIgnoreHash(a: Template, b: Template) {
    a.labels - {"pod-template-hash"} == b.labels - {"pod-template-hash"} && a.spec == b.spec
  }

  /** Two templates match when they differ in nothing but the value or presence of the hash label. */
  lemma EqualIgnoreHashExactly(a: Template, b: Template)
    ensures EqualIgnoreHash(a, b) <==>
      && a.spec == b.spec
      && forall l | l != "pod-template-hash" ::
        (l in a.labels <==> l in b.labels) && (l in a.labels ==> a.labels[l] == b.labels[l])
  {
    var x, y := a.labels - {"pod-template-hash"}, b.labels - {"pod-template-hash"};
    if x == y {
      forall l | l != "pod-template-hash"
        ensures (l in a.labels <==> l in b.labels) && (l in a.labels ==> a.labels[l] == b.labels[l])
      {
        assert l in x <==> l in y;
        if l in x {
          assert x[l] == y[l];
        }
      }
    }
  }

  /** FindNewReplicaSet: sort, then take the first whose template matches. */
  method FindNewReplicaSet(template: Template, rsList: seq<ReplicaSet>) returns (found: Option<ReplicaSet>)
    ensures found.Some? ==> found.value in rsList && EqualIgnoreHash(found.value.payload, template)
    ensures found.Some? ==> forall rs | rs in rsList && EqualIgnoreHash(rs.payload, template) :: !Less(rs, found.value)
    ensures found.None? ==> forall rs | rs in rsList :: !EqualIgnoreHash(rs.payload, template)
    ensures found.Some? ==>
      forall rs | rs in rsList && EqualIgnoreHash(rs.payload, template) :: found.value.rank <= rs.rank
  {
    var sorted := Sorted(rsList);
    SortedMembers(rsList);
    for i := 0 to |sorted|
      invariant forall k | 0 <= k < i :: !EqualIgnoreHash(sorted[k].payload, template)
    {
      if EqualIgnoreHash(sorted[i].payload, template) {
        FirstMatchIsOldest(sorted, template, i);
        return Some(sorted[i]);
      }
    }
    return None;
  }

  lemma SortedMembers(rsList: seq<ReplicaSet>)
    ensures InOrder(Sorted(rsList)) && forall rs :: rs in Sorted(rsList) <==> rs in rsList
  {
    SortedSorts(rsList);
    assert forall rs :: rs in Sorted(rsList) <==> rs in multiset(Sorted(rsList));
    assert forall rs :: rs in rsList <==> rs in multiset(rsList);
  }

  lemma FirstMatchIsOldest(sorted: seq<ReplicaSet>, template: Template, i: nat)
    requires InOrder(sorted) && i < |sorted|
    requires forall k | 0 <= k < i :: !EqualIgnoreHash(sorted[k].payload, template)
    ensures forall rs | rs in sorted && EqualIgnoreHash(rs.payload, template) ::
      !Less(rs, sorted[i]) && sorted[i].rank <= rs.rank
  {
    forall rs | rs in sorted && EqualIgnoreHash(rs.payload, template)
      ensures !Less(rs, sorted[i]) && sorted[i].rank <= rs.rank
    {
      var j :| 0 <= j < |sorted| && sorted[j] == rs;
      NamesCompare(rs.name, rs.name);
    }
  }

  /** The oldest match does not depend on the order of the list. */
  lemma OldestIsUnique(a: ReplicaSet, b: ReplicaSet, rsList: seq<ReplicaSet>, template: Template)
    requires Distinguished(rsList) && a in rsList && b in rsList
    requires EqualIgnoreHash(a.payload, template) && EqualIgnoreHash(b.payload, template)
    requires forall rs | rs in rsList && EqualIgnoreHash(rs.payload, template) :: !Less(rs, a) && !Less(rs, b)
    ensures a == b
  {
    NamesCompare(a.name, b.name);
  }
}
