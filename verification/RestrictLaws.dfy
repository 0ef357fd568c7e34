// What restrict_versions (f8a_worker/solver.py) keeps of the meaning of the
// dependencies it is given, and exactly when.
module RestrictLaws {
  import opened Common
  import opened Sorting
  import opened Versions
  import opened Dependencies
  import opened Bounds
  import opened Restrict

  // ----- the comparators of a result -----

  predicate PlainItem(i: Item) {
    i.key.Token? && i.version.Version?
  }

  predicate AllPlain(items: seq<Item>) {
    forall i | i in items :: PlainItem(i)
  }

  /** An appended tuple as check reads it; it raises on one that is no operator with a version. */
  predicate Meets(v: string, i: Item) {
    PlainItem(i) && Holds(i.key.op, Compare(v, i.version.text))
  }

  predicate AllMeet(v: string, items: seq<Item>) {
    forall i | i in items :: Meets(v, i)
  }

  function OwnItems(r: Restricted, name: string): seq<Item> {
    if r.name == name then r.items else []
  }

  /** What the result holds for `name`. */
  function Of(r: seq<Restricted>, name: string): seq<Item> {
    if r == [] then [] else OwnItems(r[0], name) + Of(r[1..], name)
  }

  function ResultNames(r: seq<Restricted>): seq<string> {
    if r == [] then [] else [r[0].name] + ResultNames(r[1..])
  }

  // ----- the leftover version -----

  // The comparators of a result in order, each with its package.
  type Entry = (string, Item)

  function Tagged(name: string, items: seq<Item>): seq<Entry> {
    if items == [] then [] else [(name, items[0])] + Tagged(name, items[1..])
  }

  function Listed(r: seq<Restricted>): seq<Entry> {
    if r == [] then [] else Tagged(r[0].name, r[0].items) + Listed(r[1..])
  }

  /** The version standing before position `j`, across packages. */
  function LeftBefore(listed: seq<Entry>, j: nat, leftover: Value): Value
    requires j <= |listed|
  {
    if j == 0 then leftover else listed[j - 1].1.version
  }

  /** An entry picked from what is given for its package and key, with `before` standing before it. */
  ghost predicate Follows(pick: Picker, deps: seq<Dependency>, e: Entry, before: Value) {
    var given := Given(deps, e.0);
    e.1.key in Keys(given) && e.1.version == pick(e.1.key, VersionsOf(given, e.1.key), before)
  }

  ghost predicate Chained(pick: Picker, deps: seq<Dependency>, listed: seq<Entry>, leftover: Value) {
    ChainedBy(Following(pick, deps), listed, leftover)
  }

  ghost function Following(pick: Picker, deps: seq<Dependency>): (Entry, Value) -> bool {
    (e, before) => Follows(pick, deps, e, before)
  }

  ghost predicate ChainedBy(follows: (Entry, Value) -> bool, listed: seq<Entry>, leftover: Value) {
    forall j {:trigger LeftBefore(listed, j, leftover)} | 0 <= j < |listed| :: follows(listed[j], LeftBefore(listed, j, leftover))
  }

  lemma BeforeConcat(a: seq<Entry>, b: seq<Entry>, j: nat, leftover: Value)
    requires j <= |a| + |b|
    ensures LeftBefore(a + b, j, leftover) ==
            if j <= |a| then LeftBefore(a, j, leftover) else LeftBefore(b, j - |a|, LeftBefore(a, |a|, leftover))
  {
  }

  lemma ChainedByConcat(follows: (Entry, Value) -> bool, a: seq<Entry>, b: seq<Entry>, leftover: Value)
    requires ChainedBy(follows, a, leftover) && ChainedBy(follows, b, LeftBefore(a, |a|, leftover))
    ensures ChainedBy(follows, a + b, leftover)
  {
    forall j | 0 <= j < |a + b| ensures follows((a + b)[j], LeftBefore(a + b, j, leftover)) {
      BeforeConcat(a, b, j, leftover);
      if j < |a| {
        assert follows(a[j], LeftBefore(a, j, leftover));
      } else {
        assert follows(b[j - |a|], LeftBefore(b, j - |a|, LeftBefore(a, |a|, leftover)));
      }
    }
  }

  lemma {:induction false} GroupsChained(pick: Picker, deps: seq<Dependency>, name: string, keys: seq<Key>, leftover: Value)
    requires forall key | key in keys :: key in Keys(Given(deps, name))
    ensures var (items, last) := RestrictGroups(pick, Given(deps, name), keys, leftover);
            Chained(pick, deps, Tagged(name, items), leftover) &&
            last == LeftBefore(Tagged(name, items), |Tagged(name, items)|, leftover)
  {
    if keys != [] {
      var given := Given(deps, name);
      var version := pick(keys[0], VersionsOf(given, keys[0]), leftover);
      var (rest, last) := RestrictGroups(pick, given, keys[1..], version);
      GroupsChained(pick, deps, name, keys[1..], version);
      var first := [(name, Item(keys[0], version))];
      assert Chained(pick, deps, first, leftover);
      ChainedByConcat(Following(pick, deps), first, Tagged(name, rest), leftover);
      BeforeConcat(first, Tagged(name, rest), 1 + |Tagged(name, rest)|, leftover);
      assert ([Item(keys[0], version)] + rest)[1..] == rest;
    }
  }

  lemma {:induction false} NamesChained(pick: Picker, deps: seq<Dependency>, names: seq<string>, n: nat, leftover: Value)
    requires n <= |names|
    ensures Chained(pick, deps, Listed(RestrictNames(pick, deps, names, n, leftover)), leftover)
    decreases |names| - n
  {
    if n < |names| {
      var keys := Distinct(Keys(Given(deps, names[n])));
      var (d, last) := RestrictName(pick, deps, names[n], leftover);
      DistinctMembers(Keys(Given(deps, names[n])));
      GroupsChained(pick, deps, names[n], keys, leftover);
      NamesChained(pick, deps, names, n + 1, last);
      var rest := RestrictNames(pick, deps, names, n + 1, last);
      ChainedByConcat(Following(pick, deps), Tagged(d.name, d.items), Listed(rest), leftover);
      assert ([d] + rest)[1..] == rest;
    }
  }

  // ----- the shape of a result -----

  lemma {:induction false} GroupsKeys(pick: Picker, items: seq<Item>, keys: seq<Key>, leftover: Value)
    ensures Keys(RestrictGroups(pick, items, keys, leftover).0) == keys
  {
    if keys != [] {
      var version := pick(keys[0], VersionsOf(items, keys[0]), leftover);
      GroupsKeys(pick, items, keys[1..], version);
      var rest := RestrictGroups(pick, items, keys[1..], version).0;
      assert ([Item(keys[0], version)] + rest)[1..] == rest;
    }
  }

  lemma {:induction false} NamesShape(pick: Picker, deps: seq<Dependency>, names: seq<string>, n: nat, leftover: Value, name: string)
    requires n <= |names| && forall i, j | 0 <= i < j < |names| :: names[i] != names[j]
    ensures var r := RestrictNames(pick, deps, names, n, leftover);
            && ResultNames(r) == names[n..]
            && (if name in names[n..] then Keys(Of(r, name)) == Distinct(Keys(Given(deps, name))) else Of(r, name) == [])
    decreases |names| - n
  {
    if n < |names| {
      var (d, last) := RestrictName(pick, deps, names[n], leftover);
      var rest := RestrictNames(pick, deps, names, n + 1, last);
      NamesShape(pick, deps, names, n + 1, last, name);
      GroupsKeys(pick, Given(deps, names[n]), Distinct(Keys(Given(deps, names[n]))), leftover);
      DropNext(names, n);
      assert ([d] + rest)[1..] == rest;
      if name == names[n] {
        assert d.items + [] == d.items;
      } else {
        assert [] + Of(rest, name) == Of(rest, name);
      }
    }
  }

  /** The names stay, in order of first occurrence; under each, every operator given for it once. */
  lemma RestrictShape(deps: seq<Dependency>, name: string)
    requires RestrictVersions(deps).Ok?
    ensures var r := RestrictVersions(deps).value;
            && ResultNames(r) == Distinct(Names(deps))
            && Keys(Of(r, name)) == Distinct(Keys(Given(deps, name)))
  {
    var names := Distinct(Names(deps));
    DistinctMembers(Names(deps));
    NamesShape(Pick, deps, names, 0, Collected(deps), name);
    assert names[0..] == names;
    if name !in names {
      GivenAbsent(deps, name);
    }
  }

  lemma EntryFollows(deps: seq<Dependency>, j: nat)
    requires RestrictVersions(deps).Ok? && j < |Listed(RestrictVersions(deps).value)|
    ensures var listed := Listed(RestrictVersions(deps).value);
            Follows(Pick, deps, listed[j], LeftBefore(listed, j, Collected(deps)))
  {
    NamesChained(Pick, deps, Distinct(Names(deps)), 0, Collected(deps));
    var listed := Listed(RestrictVersions(deps).value);
    assert Following(Pick, deps)(listed[j], LeftBefore(listed, j, Collected(deps)));
  }

  // ----- the groups and what stands before them, read off the input -----

  function TagKeys(name: string, keys: seq<Key>): (r: seq<(string, Key)>)
    ensures |r| == |keys| && forall k | 0 <= k < |r| :: r[k] == (name, keys[k])
  {
    seq(|keys|, k requires 0 <= k < |keys| => (name, keys[k]))
  }

  function GroupsFrom(deps: seq<Dependency>, names: seq<string>, n: nat): seq<(string, Key)>
    requires n <= |names|
    decreases |names| - n
  {
    if n == |names| then []
    else TagKeys(names[n], Distinct(Keys(Given(deps, names[n])))) + GroupsFrom(deps, names, n + 1)
  }

  /** The packages and, for each, the keys given for it, in order of first occurrence. */
  function Groups(deps: seq<Dependency>): seq<(string, Key)> {
    GroupsFrom(deps, Distinct(Names(deps)), 0)
  }

  /** What stands before group `j`: the version picked for the nearest group of a bound before it, or, when
      there is none, the last version given at all. */
  function Standing(deps: seq<Dependency>, j: nat): Value
    requires j <= |Groups(deps)|
  {
    Nearest(Groups(deps), Picked(deps), Collected(deps), j)
  }

  function Nearest(groups: seq<(string, Key)>, picked: (string, Key) -> Value, first: Value, j: nat): Value
    requires j <= |groups|
  {
    if j == 0 then first
    else if IsBoundKey(groups[j - 1].1) then picked(groups[j - 1].0, groups[j - 1].1)
    else Nearest(groups, picked, first, j - 1)
  }

  /** The version picked for a bound. */
  function Picked(deps: seq<Dependency>): (string, Key) -> Value {
    (name, key) => Pick(key, VersionsOf(Given(deps, name), key), Collected(deps))
  }

  function Tags(listed: seq<Entry>): (r: seq<(string, Key)>)
    ensures |r| == |listed| && forall k | 0 <= k < |r| :: r[k] == (listed[k].0, listed[k].1.key)
  {
    seq(|listed|, k requires 0 <= k < |listed| => (listed[k].0, listed[k].1.key))
  }

  lemma {:induction false} TaggedKeys(name: string, items: seq<Item>)
    ensures Tags(Tagged(name, items)) == TagKeys(name, Keys(items))
  {
    if items != [] {
      TaggedKeys(name, items[1..]);
    }
  }

  lemma {:induction false} ListedGroups(pick: Picker, deps: seq<Dependency>, names: seq<string>, n: nat, leftover: Value)
    requires n <= |names|
    ensures Tags(Listed(RestrictNames(pick, deps, names, n, leftover))) == GroupsFrom(deps, names, n)
    decreases |names| - n
  {
    if n < |names| {
      var keys := Distinct(Keys(Given(deps, names[n])));
      var (d, last) := RestrictName(pick, deps, names[n], leftover);
      var rest := RestrictNames(pick, deps, names, n + 1, last);
      GroupsKeys(pick, Given(deps, names[n]), keys, leftover);
      TaggedKeys(d.name, d.items);
      ListedGroups(pick, deps, names, n + 1, last);
      assert ([d] + rest)[1..] == rest;
      assert Tags(Tagged(d.name, d.items) + Listed(rest)) == Tags(Tagged(d.name, d.items)) + Tags(Listed(rest));
    }
  }

  /** A bound is picked from the versions given, whatever was left over; for other keys that is what stays. */
  lemma PickLeaves(deps: seq<Dependency>, name: string, key: Key, leftover: Value, other: Value)
    requires key in Keys(Given(deps, name))
    ensures var versions := VersionsOf(Given(deps, name), key);
            Pick(key, versions, leftover) == if IsBoundKey(key) then Pick(key, versions, other) else leftover
  {
    GivenTyped(deps, name);
    if key.Token? {
      GroupTexts(Given(deps, name), key.op);
    }
  }

  /** The result has one comparator for each group, in order. */
  lemma GroupsListed(deps: seq<Dependency>)
    requires RestrictVersions(deps).Ok?
    ensures Tags(Listed(RestrictVersions(deps).value)) == Groups(deps)
  {
    ListedGroups(Pick, deps, Distinct(Names(deps)), 0, Collected(deps));
  }

  /** An entry of a bound holds the version picked for it, any other one what stands before it. */
  ghost predicate HoldsPicked(e: Entry, picked: (string, Key) -> Value, before: Value) {
    e.1.version == if IsBoundKey(e.1.key) then picked(e.0, e.1.key) else before
  }

  lemma {:induction false} NearestStands(listed: seq<Entry>, groups: seq<(string, Key)>, picked: (string, Key) -> Value,
                                         first: Value, j: nat)
    requires j <= |listed| && Tags(listed) == groups
    requires ChainedBy((e, before) => HoldsPicked(e, picked, before), listed, first)
    ensures LeftBefore(listed, j, first) == Nearest(groups, picked, first, j)
  {
    if j > 0 {
      NearestStands(listed, groups, picked, first, j - 1);
      assert groups[j - 1] == (listed[j - 1].0, listed[j - 1].1.key);
      assert HoldsPicked(listed[j - 1], picked, LeftBefore(listed, j - 1, first));
    }
  }

  /** The version standing before a group is read off the input. */
  lemma StandsBefore(deps: seq<Dependency>, j: nat)
    requires RestrictVersions(deps).Ok? && j <= |Groups(deps)| == |Listed(RestrictVersions(deps).value)|
    ensures LeftBefore(Listed(RestrictVersions(deps).value), j, Collected(deps)) == Standing(deps, j)
  {
    var listed := Listed(RestrictVersions(deps).value);
    GroupsListed(deps);
    forall k | 0 <= k < |listed|
      ensures HoldsPicked(listed[k], Picked(deps), LeftBefore(listed, k, Collected(deps)))
    {
      EntryFollows(deps, k);
      PickLeaves(deps, listed[k].0, listed[k].1.key, LeftBefore(listed, k, Collected(deps)), Collected(deps));
    }
    NearestStands(listed, Groups(deps), Picked(deps), Collected(deps), j);
  }

  lemma {:induction false} KeysMembers(items: seq<Item>)
    ensures forall key :: key in Keys(items) <==> exists i :: i in items && i.key == key
  {
    if items != [] {
      KeysMembers(items[1..]);
      assert items == [items[0]] + items[1..];
    }
  }

  lemma {:induction false} TaggedMembers(name: string, items: seq<Item>)
    ensures forall e :: e in Tagged(name, items) <==> e.0 == name && e.1 in items
  {
    if items != [] {
      TaggedMembers(name, items[1..]);
      assert items == [items[0]] + items[1..];
    }
  }

  lemma {:induction false} ListedMembers(r: seq<Restricted>, name: string)
    ensures forall i :: (name, i) in Listed(r) <==> i in Of(r, name)
  {
    if r != [] {
      TaggedMembers(r[0].name, r[0].items);
      ListedMembers(r[1..], name);
    }
  }

  // ----- what a picked version means -----

  lemma {:induction false} VersionsMembers(items: seq<Item>, key: Key)
    ensures forall x :: x in VersionsOf(items, key) <==> Item(key, x) in items
  {
    if items != [] {
      VersionsMembers(items[1..], key);
      assert items == [items[0]] + items[1..];
    }
  }

  lemma Stricter(op: Op, pick: string, b: string, v: string)
    requires IsBound(op) && Holds(op, Compare(v, pick))
    requires if IsLower(op) then AtMost(b, pick) else AtMost(pick, b)
    ensures Holds(op, Compare(v, b))
  {
    CompareTotalPreorder(v, pick, b);
    CompareTotalPreorder(b, pick, v);
    CompareTotalPreorder(v, b, pick);
  }

  lemma ExtremeStrictest(op: Op, texts: seq<string>, pick: string, v: string)
    requires IsBound(op) && pick in texts
    requires forall b | b in texts :: if IsLower(op) then AtMost(b, pick) else AtMost(pick, b)
    ensures Holds(op, Compare(v, pick)) <==> forall b | b in texts :: Holds(op, Compare(v, b))
  {
    forall b | b in texts && Holds(op, Compare(v, pick)) ensures Holds(op, Compare(v, b)) {
      Stricter(op, pick, b, v);
    }
  }

  /** The picked end of the sorted texts is as strict as all of them together. */
  lemma EndStrictest(op: Op, texts: seq<string>, v: string)
    requires texts != [] && IsBound(op)
    ensures var sorted := Sort(texts, AtMost);
            && |sorted| == |texts|
            && var pick := if IsLower(op) then sorted[|sorted| - 1] else sorted[0];
               Holds(op, Compare(v, pick)) <==> forall b | b in texts :: Holds(op, Compare(v, b))
  {
    AtMostIsTotalPreorder();
    SortEnds(texts, AtMost);
    var sorted := Sort(texts, AtMost);
    ExtremeStrictest(op, texts, if IsLower(op) then sorted[|sorted| - 1] else sorted[0], v);
  }

  /** What the comparators of one operator say. */
  ghost predicate GroupHolds(v: string, given: seq<Item>, op: Op) {
    forall t | Version(t) in VersionsOf(given, Token(op)) :: Holds(op, Compare(v, t))
  }

  lemma GroupTexts(given: seq<Item>, op: Op)
    requires Typed(given) && Token(op) in Keys(given)
    ensures var texts := VersionTexts(VersionsOf(given, Token(op)));
            texts != [] && forall t :: t in texts <==> Version(t) in VersionsOf(given, Token(op))
  {
    TextsOfToken(given, Token(op));
    VersionsNonempty(given, Token(op));
    var (versions, texts) := (VersionsOf(given, Token(op)), VersionTexts(VersionsOf(given, Token(op))));
    forall t | t in texts ensures Version(t) in versions {
      var k :| 0 <= k < |texts| && texts[k] == t;
      assert versions[k] == Version(t);
    }
    forall t | Version(t) in versions ensures t in texts {
      var k :| 0 <= k < |versions| && versions[k] == Version(t);
      assert texts[k] == t;
    }
  }

  lemma PickEnd(op: Op, versions: seq<Value>, leftover: Value)
    requires IsBound(op) && VersionTexts(versions) != []
    ensures var sorted := Sort(VersionTexts(versions), AtMost);
            |sorted| == |VersionTexts(versions)| &&
            Pick(Token(op), versions, leftover) == Version(if IsLower(op) then sorted[|sorted| - 1] else sorted[0])
  {
    SortKeeps(VersionTexts(versions), AtMost);
  }

  /** For a bound, whatever was left over, the picked version stands for all given ones. */
  lemma BoundPicked(given: seq<Item>, op: Op, leftover: Value, v: string)
    requires Typed(given) && Token(op) in Keys(given) && IsBound(op)
    ensures var picked := Pick(Token(op), VersionsOf(given, Token(op)), leftover);
            picked.Version? && (Holds(op, Compare(v, picked.text)) <==> GroupHolds(v, given, op))
  {
    GroupTexts(given, op);
    PickEnd(op, VersionsOf(given, Token(op)), leftover);
    EndStrictest(op, VersionTexts(VersionsOf(given, Token(op))), v);
  }

  predicate SameAsAll(text: string, versions: seq<Value>) {
    forall x | x in versions :: x.Version? ==> Compare(text, x.text) == 0
  }

  /** A version standing for those of an operator that is no bound means the same exactly when it
      compares equal to each of them. */
  lemma LeftoverMeaning(given: seq<Item>, op: Op, left: string)
    requires Typed(given) && Token(op) in Keys(given) && !IsBound(op)
    ensures (forall v :: Holds(op, Compare(v, left)) <==> GroupHolds(v, given, op))
            <==> SameAsAll(left, VersionsOf(given, Token(op)))
  {
    GroupTexts(given, op);
    var versions := VersionsOf(given, Token(op));
    var texts := VersionTexts(versions);
    if SameAsAll(left, versions) {
      forall v, t | t in texts ensures Holds(op, Compare(v, left)) <==> Holds(op, Compare(v, t)) {
        assert Version(t) in versions;
        CompareTotalPreorder(left, t, v);
        CompareTotalPreorder(v, left, t);
        CompareTotalPreorder(v, t, left);
      }
      assert texts[0] in texts;
    } else {
      var x :| x in versions && x.Version? && Compare(left, x.text) != 0;
      CompareTotalPreorder(left, x.text, left);
      CompareTotalPreorder(x.text, left, x.text);
      var v := if op == NEQ then x.text else left;
      assert Holds(op, Compare(v, left)) != GroupHolds(v, given, op);
    }
  }

  // ----- from what is unpacked to what is given -----

  lemma {:induction false} GivenWanted(deps: seq<Dependency>, name: string)
    ensures Given(deps, name) == Items(Wanted(deps, name))
  {
    if deps != [] {
      GivenWanted(deps[1..], name);
      ItemsConcat(if deps[0].name == name then deps[0].spec else [], Wanted(deps[1..], name));
    }
  }

  predicate TwoList(s: Spec) {
    s.Conj? && |s.items| == 2
  }

  lemma {:induction false} ItemsMembers(spec: seq<Spec>)
    ensures forall op, t :: Item(Token(op), Version(t)) in Items(spec) <==> Pair(op, t) in spec
    ensures AllPlain(Items(spec)) <==> forall s | s in spec :: !TwoList(s)
  {
    if spec != [] {
      ItemsMembers(spec[1..]);
      assert spec == [spec[0]] + spec[1..];
      if TwoList(spec[0]) {
        assert Unpack(spec[0])[0] in Items(spec);
      }
    }
  }

  /** The comparators of one operator, in what is given and in what is unpacked. */
  lemma WantedVersions(deps: seq<Dependency>, name: string, op: Op)
    ensures forall t :: Version(t) in VersionsOf(Given(deps, name), Token(op)) <==> Pair(op, t) in Wanted(deps, name)
  {
    GivenWanted(deps, name);
    ItemsMembers(Wanted(deps, name));
    VersionsMembers(Given(deps, name), Token(op));
  }

  /** The comparators given for `name` with operator `op` hold. */
  ghost predicate WantedHold(v: string, deps: seq<Dependency>, name: string, op: Op) {
    forall t | Pair(op, t) in Wanted(deps, name) :: Accepts(v, Pair(op, t))
  }

  ghost predicate EqualsWanted(text: string, deps: seq<Dependency>, name: string, op: Op) {
    forall t | Pair(op, t) in Wanted(deps, name) :: Compare(text, t) == 0
  }

  lemma WantedGroup(deps: seq<Dependency>, name: string, op: Op, text: string)
    ensures forall v :: GroupHolds(v, Given(deps, name), op) <==> WantedHold(v, deps, name, op)
    ensures SameAsAll(text, VersionsOf(Given(deps, name), Token(op))) <==> EqualsWanted(text, deps, name, op)
  {
    WantedVersions(deps, name, op);
  }

  /** With the version `left` before it, the entry for `op` keeps the meaning of the comparators given. */
  ghost predicate Keeps(left: Value, deps: seq<Dependency>, name: string, op: Op) {
    IsBound(op) || (left.Version? && EqualsWanted(left.text, deps, name, op))
  }

  /** One entry, with a version text left before it. */
  lemma EntryExact(deps: seq<Dependency>, e: Entry, left: Value)
    requires Follows(Pick, deps, e, left) && e.1.key.Token? && (left.Version? || IsBound(e.1.key.op))
    ensures PlainItem(e.1)
    ensures (forall v :: Meets(v, e.1) <==> WantedHold(v, deps, e.0, e.1.key.op)) <==> Keeps(left, deps, e.0, e.1.key.op)
  {
    var (given, op) := (Given(deps, e.0), e.1.key.op);
    GivenTyped(deps, e.0);
    if IsBound(op) {
      forall v ensures PlainItem(e.1) && (Meets(v, e.1) <==> WantedHold(v, deps, e.0, op)) {
        BoundPicked(given, op, left, v);
        WantedGroup(deps, e.0, op, "");
      }
      BoundPicked(given, op, left, "");
    } else {
      WantedGroup(deps, e.0, op, left.text);
      LeftoverMeaning(given, op, left.text);
    }
  }

  // ----- flat dependencies -----

  lemma {:induction false} FlatWanted(deps: seq<Dependency>, name: string)
    requires AllFlat(deps)
    ensures forall s | s in Wanted(deps, name) :: s.Pair?
  {
    if deps != [] {
      assert deps[0] in deps;
      FlatWanted(deps[1..], name);
    }
  }

  lemma {:induction false} FlatItems(deps: seq<Dependency>)
    requires AllFlat(deps)
    ensures AllPlain(AllItems(deps)) && !HasListKey(deps) && Collected(deps).Version?
  {
    if deps != [] {
      assert deps[0] in deps;
      ItemsMembers(deps[0].spec);
      FlatItems(deps[1..]);
    }
    assert AllItems(deps) != [] ==> AllItems(deps)[|AllItems(deps)| - 1] in AllItems(deps);
  }

  lemma FlatKeys(deps: seq<Dependency>, name: string)
    requires AllFlat(deps)
    ensures forall key | key in Keys(Given(deps, name)) :: key.Token?
  {
    GivenWanted(deps, name);
    FlatWanted(deps, name);
    ItemsMembers(Wanted(deps, name));
    KeysMembers(Given(deps, name));
  }

  /** Behind a version text, only comparators follow. */
  ghost predicate FollowPlain(follows: (Entry, Value) -> bool) {
    forall e: Entry, before: Value | before.Version? && follows(e, before) :: PlainItem(e.1)
  }

  lemma PickPlain(deps: seq<Dependency>, e: Entry, before: Value)
    requires AllFlat(deps) && before.Version? && Follows(Pick, deps, e, before)
    ensures PlainItem(e.1)
  {
    FlatKeys(deps, e.0);
  }

  lemma {:induction false} ListedPlain(follows: (Entry, Value) -> bool, listed: seq<Entry>, leftover: Value, j: nat)
    requires FollowPlain(follows) && leftover.Version? && ChainedBy(follows, listed, leftover) && j <= |listed|
    ensures LeftBefore(listed, j, leftover).Version? && (j < |listed| ==> PlainItem(listed[j].1))
  {
    if j > 0 {
      ListedPlain(follows, listed, leftover, j - 1);
    }
    if j < |listed| {
      assert follows(listed[j], LeftBefore(listed, j, leftover));
    }
  }

  /** For flat dependencies with any operators: the comparator left for a group, a package and one operator
      given for it, means the conjunction of those given exactly when the operator is one of the four
      bounds, or the version standing before the group compares equal to all of them. */
  lemma LeftoverExact(deps: seq<Dependency>, j: nat)
    requires AllFlat(deps) && j < |Groups(deps)|
    ensures RestrictVersions(deps).Ok? && |Listed(RestrictVersions(deps).value)| == |Groups(deps)|
    ensures var ((name, key), left) := (Groups(deps)[j], Standing(deps, j));
            var (owner, i) := Listed(RestrictVersions(deps).value)[j];
            && owner == name && i.key == key && PlainItem(i) && left.Version?
            && ((forall v :: Meets(v, i) <==> WantedHold(v, deps, name, key.op)) <==>
                IsBound(key.op) || EqualsWanted(left.text, deps, name, key.op))
  {
    FlatItems(deps);
    NamesChained(Pick, deps, Distinct(Names(deps)), 0, Collected(deps));
    var listed := Listed(RestrictVersions(deps).value);
    GroupsListed(deps);
    StandsBefore(deps, j);
    assert Tags(listed)[j] == Groups(deps)[j];
    forall e: Entry, before: Value | before.Version? && Follows(Pick, deps, e, before) ensures PlainItem(e.1) {
      PickPlain(deps, e, before);
    }
    ListedPlain(Following(Pick, deps), listed, Collected(deps), j);
    EntryFollows(deps, j);
    EntryExact(deps, listed[j], Standing(deps, j));
  }

  // ----- the meaning of a package -----

  /** The condition above for every group of `name`. */
  ghost predicate AllKept(deps: seq<Dependency>, name: string) {
    forall j | 0 <= j < |Groups(deps)| && Groups(deps)[j].0 == name ::
      Groups(deps)[j].1.Token? && Keeps(Standing(deps, j), deps, name, Groups(deps)[j].1.op)
  }

  lemma EntriesMean(deps: seq<Dependency>, name: string, v: string)
    requires RestrictVersions(deps).Ok? && AllKept(deps, name)
    ensures var items := Of(RestrictVersions(deps).value, name);
            AllPlain(items) && forall i | i in items :: Meets(v, i) <==> WantedHold(v, deps, name, i.key.op)
  {
    var r := RestrictVersions(deps).value;
    ListedMembers(r, name);
    forall i | i in Of(r, name) ensures PlainItem(i) && (Meets(v, i) <==> WantedHold(v, deps, name, i.key.op)) {
      var j :| 0 <= j < |Listed(r)| && Listed(r)[j] == (name, i);
      GroupsListed(deps);
      assert Tags(Listed(r))[j] == (name, i.key);
      StandsBefore(deps, j);
      EntryFollows(deps, j);
      EntryExact(deps, Listed(r)[j], Standing(deps, j));
    }
  }

  /** The comparators given for `name`, whatever else its entries are. */
  ghost predicate PairsHold(v: string, deps: seq<Dependency>, name: string) {
    forall op, t | Pair(op, t) in Wanted(deps, name) :: Accepts(v, Pair(op, t))
  }

  /** A package whose entries all keep their meaning keeps its meaning. */
  lemma KeptMeaning(deps: seq<Dependency>, name: string, v: string)
    requires RestrictVersions(deps).Ok? && AllKept(deps, name)
    ensures AllPlain(Of(RestrictVersions(deps).value, name))
    ensures AllMeet(v, Of(RestrictVersions(deps).value, name)) <==> PairsHold(v, deps, name)
  {
    var items := Of(RestrictVersions(deps).value, name);
    EntriesMean(deps, name, v);
    RestrictShape(deps, name);
    DistinctMembers(Keys(Given(deps, name)));
    KeysMembers(items);
    forall op, t | Pair(op, t) in Wanted(deps, name) ensures exists i :: i in items && i.key == Token(op) {
      WantedVersions(deps, name, op);
      VersionsNonempty(Given(deps, name), Token(op));
    }
    if AllMeet(v, items) {
      forall op, t | Pair(op, t) in Wanted(deps, name) ensures Accepts(v, Pair(op, t)) {
        var i :| i in items && i.key == Token(op);
        assert WantedHold(v, deps, name, op);
      }
    }
  }

  /** Every pair given for `name` is one of the four bounds, and no list of two is given for it. */
  ghost predicate BoundedName(deps: seq<Dependency>, name: string) {
    forall s | s in Wanted(deps, name) :: (s.Pair? ==> IsBound(s.op)) && !TwoList(s)
  }

  lemma BoundsKept(deps: seq<Dependency>, name: string)
    requires RestrictVersions(deps).Ok? && BoundedName(deps, name)
    ensures AllKept(deps, name)
  {
    var listed := Listed(RestrictVersions(deps).value);
    GivenBounds(deps, name);
    GroupsListed(deps);
    forall j | 0 <= j < |Groups(deps)| && Groups(deps)[j].0 == name
      ensures Groups(deps)[j].1.Token? && IsBound(Groups(deps)[j].1.op)
    {
      assert Tags(listed)[j] == Groups(deps)[j];
      EntryFollows(deps, j);
    }
  }

  /** Flat specs over `>`, `>=`, `<` and `<=`: a release satisfies all comparators given for a package
      exactly when it satisfies all that are left; the names stay, with one comparator per operator. */
  lemma RestrictMeaning(deps: seq<Dependency>, name: string, version: string)
    requires forall d | d in deps :: Bounded(d.spec)
    ensures RestrictVersions(deps).Ok?
    ensures var r := RestrictVersions(deps).value;
            && ResultNames(r) == Distinct(Names(deps))
            && AllPlain(Of(r, name))
            && (AllMeet(version, Of(r, name)) <==> AllHold(version, Wanted(deps, name)))
            && (forall i, j | 0 <= i < j < |Of(r, name)| :: Of(r, name)[i].key != Of(r, name)[j].key)
  {
    BoundedWanted(deps, name);
    RestrictShape(deps, name);
    BoundsKept(deps, name);
    KeptMeaning(deps, name, version);
    DistinctMembers(Keys(Given(deps, name)));
    KeysAt(Of(RestrictVersions(deps).value, name));
  }

  lemma {:induction false} BoundedWanted(deps: seq<Dependency>, name: string)
    requires forall d | d in deps :: Bounded(d.spec)
    ensures Bounded(Wanted(deps, name))
  {
    if deps != [] {
      assert deps[0] in deps;
      BoundedWanted(deps[1..], name);
    }
  }

  lemma {:induction false} KeysAt(items: seq<Item>)
    ensures |Keys(items)| == |items| && forall k | 0 <= k < |items| :: Keys(items)[k] == items[k].key
  {
    if items != [] {
      KeysAt(items[1..]);
    }
  }

  // ----- entries of other lengths -----

  function PairsIn(spec: seq<Spec>): seq<Spec> {
    if spec == [] then [] else (if spec[0].Pair? then [spec[0]] else []) + PairsIn(spec[1..])
  }

  predicate LeafForced(pairs: seq<Spec>, leaf: Spec) {
    match leaf
    case Pair(op, t) => Forced(pairs, op, t)
    case Single(t) => Forced(pairs, EQ2, t)
    case Conj(_) => true
  }

  /** Every comparator inside the entry is forced by the pairs that are kept. */
  predicate EntryForced(pairs: seq<Spec>, s: Spec) {
    forall leaf | leaf in Leaves(s) :: LeafForced(pairs, leaf)
  }

  lemma {:induction false} PairsInMembers(spec: seq<Spec>)
    ensures forall s :: s in PairsIn(spec) <==> s in spec && s.Pair?
  {
    if spec != [] {
      PairsInMembers(spec[1..]);
      assert spec == [spec[0]] + spec[1..];
    }
  }

  lemma EntryImplied(pairs: seq<Spec>, s: Spec)
    requires Bounded(pairs)
    ensures (forall v | AllHold(v, pairs) :: Accepts(v, s)) <==> EntryForced(pairs, s)
  {
    forall v ensures Accepts(v, s) <==> AllHold(v, Leaves(s)) {
      ConjunctionOfLeaves(v, s);
    }
    ConjunctionOfLeaves("", s);
    forall leaf | leaf in Leaves(s)
      ensures (forall v | AllHold(v, pairs) :: Accepts(v, leaf)) <==> LeafForced(pairs, leaf)
    {
      ImpliedExact(pairs, if leaf.Pair? then leaf.op else EQ2, leaf.version);
    }
  }

  lemma TwoListBreaks(deps: seq<Dependency>, name: string, s: Spec)
    requires RestrictVersions(deps).Ok? && s in Wanted(deps, name) && TwoList(s)
    ensures !AllPlain(Of(RestrictVersions(deps).value, name))
  {
    var items := Of(RestrictVersions(deps).value, name);
    RestrictShape(deps, name);
    GivenWanted(deps, name);
    TwoListUnpacked(Wanted(deps, name), s);
    KeysMembers(Given(deps, name));
    DistinctMembers(Keys(Given(deps, name)));
    assert Element(s.items[0]) in Keys(items);
    KeysMembers(items);
  }

  lemma {:induction false} TwoListUnpacked(spec: seq<Spec>, s: Spec)
    requires s in spec && TwoList(s)
    ensures Item(Element(s.items[0]), Other(s.items[1])) in Items(spec)
  {
    if s != spec[0] {
      TwoListUnpacked(spec[1..], s);
    }
  }

  lemma KeptPairs(deps: seq<Dependency>, name: string, v: string)
    requires RestrictVersions(deps).Ok? && BoundedName(deps, name)
    ensures AllPlain(Of(RestrictVersions(deps).value, name)) && Bounded(PairsIn(Wanted(deps, name)))
    ensures AllMeet(v, Of(RestrictVersions(deps).value, name)) <==> AllHold(v, PairsIn(Wanted(deps, name)))
  {
    BoundsKept(deps, name);
    KeptMeaning(deps, name, v);
    PairsInMembers(Wanted(deps, name));
    forall p | p in PairsIn(Wanted(deps, name)) ensures p == Pair(p.op, p.version) {
    }
  }

  /** Whatever else is given for a package whose pairs are bounds: the result is a list of comparators
      with the meaning of everything given exactly when no entry is a list of two, which is unpacked
      like an operator and a version, and all other entries that are no pairs, which are dropped, are
      forced by the pairs. */
  lemma DroppedExact(deps: seq<Dependency>, name: string)
    requires RestrictVersions(deps).Ok?
    requires forall s | s in Wanted(deps, name) && s.Pair? :: IsBound(s.op)
    ensures var (items, wanted) := (Of(RestrictVersions(deps).value, name), Wanted(deps, name));
            (AllPlain(items) && forall v :: AllMeet(v, items) <==> AllHold(v, wanted)) <==>
            forall s | s in wanted && !s.Pair? :: !TwoList(s) && EntryForced(PairsIn(wanted), s)
  {
    var wanted := Wanted(deps, name);
    if s :| s in wanted && TwoList(s) {
      TwoListBreaks(deps, name, s);
    } else {
      forall v ensures AllMeet(v, Of(RestrictVersions(deps).value, name)) <==> AllHold(v, PairsIn(wanted)) {
        KeptPairs(deps, name, v);
      }
      KeptPairs(deps, name, "");
      DroppedImplied(wanted);
    }
  }

  lemma DroppedImplied(wanted: seq<Spec>)
    requires Bounded(PairsIn(wanted))
    ensures (forall v :: AllHold(v, PairsIn(wanted)) <==> AllHold(v, wanted)) <==>
            forall s | s in wanted && !s.Pair? :: EntryForced(PairsIn(wanted), s)
  {
    var pairs := PairsIn(wanted);
    PairsInMembers(wanted);
    forall s | s in wanted && !s.Pair?
      ensures (forall v | AllHold(v, pairs) :: Accepts(v, s)) <==> EntryForced(pairs, s)
    {
      EntryImplied(pairs, s);
    }
    if forall s | s in wanted && !s.Pair? :: EntryForced(pairs, s) {
      forall v ensures AllHold(v, pairs) <==> AllHold(v, wanted) {
      }
    }
  }

  // ----- a second application changes nothing -----

  function Spelled(items: seq<Item>): seq<Spec>
    requires AllPlain(items)
  {
    if items == [] then []
    else
      assert items[0] in items;
      [Pair(items[0].key.op, items[0].version.text)] + Spelled(items[1..])
  }

  /** The result as dependencies. */
  function Reread(r: seq<Restricted>): seq<Dependency>
    requires forall d | d in r :: AllPlain(d.items)
  {
    if r == [] then []
    else
      assert r[0] in r;
      [Dependency(r[0].name, Spelled(r[0].items))] + Reread(r[1..])
  }

  ghost predicate BoundItems(items: seq<Item>) {
    AllPlain(items) && forall i | i in items :: IsBound(i.key.op)
  }

  ghost predicate DistinctKeys(items: seq<Item>) {
    forall i, j | 0 <= i < j < |items| :: items[i].key != items[j].key
  }

  /** Names without repetition, each with at most one comparator per bound. */
  ghost predicate Tight(r: seq<Restricted>) {
    && (forall i, j | 0 <= i < j < |r| :: r[i].name != r[j].name)
    && (forall d | d in r :: BoundItems(d.items) && DistinctKeys(d.items))
  }

  lemma {:induction false} ItemsSpelled(items: seq<Item>)
    requires AllPlain(items)
    ensures Items(Spelled(items)) == items
  {
    if items != [] {
      assert items[0] in items;
      ItemsSpelled(items[1..]);
      assert items == [items[0]] + items[1..];
    }
  }

  lemma {:induction false} RereadNone(r: seq<Restricted>, name: string)
    requires (forall d | d in r :: AllPlain(d.items)) && forall d | d in r :: d.name != name
    ensures Given(Reread(r), name) == []
  {
    if r != [] {
      assert r[0] in r;
      RereadNone(r[1..], name);
    }
  }

  lemma {:induction false} RereadGiven(r: seq<Restricted>, k: nat)
    requires Tight(r) && k < |r|
    ensures Given(Reread(r), r[k].name) == r[k].items
  {
    assert r[0] in r;
    assert forall d | d in r[1..] :: d in r;
    ItemsSpelled(r[0].items);
    if k > 0 {
      RereadGiven(r[1..], k - 1);
    } else {
      RereadNone(r[1..], r[0].name);
    }
  }

  lemma {:induction false} RereadNames(r: seq<Restricted>)
    requires forall d | d in r :: AllPlain(d.items)
    ensures |Names(Reread(r))| == |r| && forall k | 0 <= k < |r| :: Names(Reread(r))[k] == r[k].name
  {
    if r != [] {
      assert r[0] in r;
      RereadNames(r[1..]);
    }
  }

  lemma {:induction false} RereadHashable(r: seq<Restricted>)
    requires forall d | d in r :: AllPlain(d.items)
    ensures !HasListKey(Reread(r))
  {
    if r != [] {
      assert r[0] in r;
      RereadHashable(r[1..]);
      SpelledPairs(r[0].items);
    }
  }

  lemma {:induction false} SpelledPairs(items: seq<Item>)
    requires AllPlain(items)
    ensures forall s | s in Spelled(items) :: s.Pair?
  {
    if items != [] {
      assert items[0] in items;
      SpelledPairs(items[1..]);
    }
  }

  /** A lone version for a bound is picked as it is. */
  ghost predicate PicksSole(pick: Picker) {
    forall key, text, leftover | IsBoundKey(key) :: pick(key, [Version(text)], leftover) == Version(text)
  }

  lemma PickPicksSole()
    ensures PicksSole(Pick)
  {
    forall key, text, leftover | IsBoundKey(key) ensures Pick(key, [Version(text)], leftover) == Version(text) {
      var sole := [Version(text)];
      assert sole[1..] == [] && VersionTexts(sole) == [text];
      assert [text][1..] == [] && Sort([text], AtMost) == [text];
    }
  }

  lemma {:induction false} SoleVersion(items: seq<Item>, k: nat)
    requires k < |items| && DistinctKeys(items)
    ensures VersionsOf(items, items[k].key) == [items[k].version]
  {
    if k == 0 {
      VersionsNonempty(items[1..], items[0].key);
      KeysAt(items[1..]);
    } else {
      SoleVersion(items[1..], k - 1);
    }
  }

  lemma {:induction false} TightGroups(pick: Picker, items: seq<Item>, k: nat, leftover: Value)
    requires PicksSole(pick) && k <= |items| == |Keys(items)| && BoundItems(items) && DistinctKeys(items)
    ensures RestrictGroups(pick, items, Keys(items)[k..], leftover).0 == items[k..]
    decreases |items| - k
  {
    if k < |items| {
      KeysAt(items);
      assert items[k] in items;
      SoleVersion(items, k);
      DropNext(Keys(items), k);
      TightGroups(pick, items, k + 1, items[k].version);
      DropNext(items, k);
    }
  }

  lemma TightGroup(pick: Picker, items: seq<Item>, leftover: Value)
    requires PicksSole(pick) && BoundItems(items) && DistinctKeys(items)
    ensures RestrictGroups(pick, items, Distinct(Keys(items)), leftover).0 == items
  {
    KeysAt(items);
    DistinctOfDistinct(Keys(items));
    TightGroups(pick, items, 0, leftover);
    assert Keys(items)[0..] == Keys(items) && items[0..] == items;
  }

  lemma TightName(pick: Picker, r: seq<Restricted>, k: nat, leftover: Value)
    requires PicksSole(pick) && Tight(r) && k < |r|
    ensures RestrictName(pick, Reread(r), r[k].name, leftover).0 == r[k]
  {
    RereadGiven(r, k);
    assert r[k] in r;
    TightGroup(pick, r[k].items, leftover);
  }

  lemma {:induction false} TightNames(pick: Picker, r: seq<Restricted>, names: seq<string>, k: nat, leftover: Value)
    requires PicksSole(pick) && Tight(r) && k <= |r| == |names| && forall n | 0 <= n < |r| :: names[n] == r[n].name
    ensures RestrictNames(pick, Reread(r), names, k, leftover) == r[k..]
    decreases |r| - k
  {
    if k < |r| {
      TightName(pick, r, k, leftover);
      TightNames(pick, r, names, k + 1, RestrictName(pick, Reread(r), names[k], leftover).1);
      DropNext(r, k);
    }
  }

  lemma {:induction false} OfEach(r: seq<Restricted>, k: nat)
    requires k < |r| && forall i, j | 0 <= i < j < |r| :: r[i].name != r[j].name
    ensures Of(r, r[k].name) == r[k].items
  {
    if k == 0 {
      OfNone(r[1..], r[0].name);
    } else {
      OfEach(r[1..], k - 1);
    }
  }

  lemma {:induction false} OfNone(r: seq<Restricted>, name: string)
    requires forall d | d in r :: d.name != name
    ensures Of(r, name) == []
  {
    if r != [] {
      assert r[0] in r;
      OfNone(r[1..], name);
    }
  }

  lemma {:induction false} ResultNamesAt(r: seq<Restricted>)
    ensures |ResultNames(r)| == |r| && forall k | 0 <= k < |r| :: ResultNames(r)[k] == r[k].name
  {
    if r != [] {
      ResultNamesAt(r[1..]);
    }
  }

  lemma RestrictedTight(deps: seq<Dependency>)
    requires RestrictVersions(deps).Ok? && forall name :: BoundedName(deps, name)
    ensures Tight(RestrictVersions(deps).value)
  {
    var r := RestrictVersions(deps).value;
    RestrictShape(deps, "");
    DistinctMembers(Names(deps));
    ResultNamesAt(r);
    forall k | 0 <= k < |r| ensures BoundItems(r[k].items) && DistinctKeys(r[k].items) {
      OfEach(r, k);
      OfTight(deps, r[k].name);
    }
  }

  lemma OfTight(deps: seq<Dependency>, name: string)
    requires RestrictVersions(deps).Ok? && BoundedName(deps, name)
    ensures BoundItems(Of(RestrictVersions(deps).value, name)) && DistinctKeys(Of(RestrictVersions(deps).value, name))
  {
    RestrictShape(deps, name);
    KeptPairs(deps, name, "");
    GivenBounds(deps, name);
    KeysTight(Of(RestrictVersions(deps).value, name), Keys(Given(deps, name)));
  }

  lemma KeysTight(items: seq<Item>, keys: seq<Key>)
    requires AllPlain(items) && Keys(items) == Distinct(keys) && forall key | key in keys :: IsBoundKey(key)
    ensures BoundItems(items) && DistinctKeys(items)
  {
    DistinctMembers(keys);
    KeysAt(items);
    forall i | i in items ensures IsBound(i.key.op) {
      assert i.key in Keys(items);
    }
  }

  lemma GivenBounds(deps: seq<Dependency>, name: string)
    requires BoundedName(deps, name)
    ensures forall key | key in Keys(Given(deps, name)) :: IsBoundKey(key)
  {
    KeysMembers(Given(deps, name));
    GivenWanted(deps, name);
    ItemsMembers(Wanted(deps, name));
    forall key | key in Keys(Given(deps, name)) ensures IsBoundKey(key) {
      var g :| g in Given(deps, name) && g.key == key;
      assert Pair(g.key.op, g.version.text) in Wanted(deps, name);
    }
  }

  /** A second application changes nothing. */
  lemma RestrictIdempotent(deps: seq<Dependency>)
    requires forall d | d in deps :: Bounded(d.spec)
    ensures var r := RestrictVersions(deps);
            && r.Ok? && (forall d | d in r.value :: AllPlain(d.items))
            && RestrictVersions(Reread(r.value)) == r
  {
    forall name ensures BoundedName(deps, name) {
      BoundedWanted(deps, name);
    }
    RestrictedTight(deps);
    var r := RestrictVersions(deps).value;
    RereadNames(r);
    RereadHashable(r);
    DistinctOfDistinct(Names(Reread(r)));
    PickPicksSole();
    TightNames(Pick, r, Names(Reread(r)), 0, Collected(Reread(r)));
    assert r[0..] == r;
  }

  // ----- inputs that lose their meaning -----

  lemma SoleDependency(d: Dependency, name: string)
    ensures Given([d], name) == Own(d, name) && AllItems([d]) == Items(d.spec) && Names([d]) == [d.name]
  {
    var rest := [d][1..];
    assert rest == [] && Own(d, name) + [] == Own(d, name) && Items(d.spec) + [] == Items(d.spec) && [d.name] + [] == [d.name];
  }

  lemma TwoDependencies(d: Dependency, e: Dependency, name: string)
    ensures Given([d, e], name) == Own(d, name) + Own(e, name)
    ensures AllItems([d, e]) == Items(d.spec) + Items(e.spec) && Names([d, e]) == [d.name, e.name]
  {
    assert [d, e][1..] == [e];
    SoleDependency(e, name);
    assert [d.name] + [e.name] == [d.name, e.name];
  }

  /** A package with one comparator that is no bound gets the version left over. */
  lemma SoleName(deps: seq<Dependency>, name: string, op: Op, t: string, leftover: Value)
    requires Given(deps, name) == [Item(Token(op), Version(t))] && !IsBound(op)
    ensures RestrictName(Pick, deps, name, leftover) == (Restricted(name, [Item(Token(op), leftover)]), leftover)
  {
    var (items, keys) := (Given(deps, name), [Token(op)]);
    assert items[1..] == [] && Keys(items) == keys + [] == keys;
    DistinctOfDistinct(keys);
    assert Pick(Token(op), VersionsOf(items, Token(op)), leftover) == leftover;
    assert keys[1..] == [] && RestrictGroups(Pick, items, [], leftover) == ([], leftover);
    assert RestrictGroups(Pick, items, keys, leftover) == ([Item(Token(op), leftover)] + [], leftover);
    assert RestrictName(Pick, deps, name, leftover).0.items == [Item(Token(op), leftover)];
  }

  /** Two packages with one comparator each: the version of the second leaks into the first. */
  lemma LeftoverCrosses(a: string, b: string, op: Op, s: string, t: string)
    requires a != b && !IsBound(op)
    ensures RestrictVersions([Dependency(a, [Pair(op, s)]), Dependency(b, [Pair(op, t)])]) ==
            Ok([Restricted(a, [Item(Token(op), Version(t))]), Restricted(b, [Item(Token(op), Version(t))])])
  {
    var (d, e) := (Dependency(a, [Pair(op, s)]), Dependency(b, [Pair(op, t)]));
    var deps := [d, e];
    assert d.spec[1..] == [] && Items(d.spec) == [Item(Token(op), Version(s))] + [];
    assert e.spec[1..] == [] && Items(e.spec) == [Item(Token(op), Version(t))] + [];
    TwoDependencies(d, e, a);
    TwoDependencies(d, e, b);
    DistinctOfDistinct([a, b]);
    assert Collected(deps) == Version(t) && !HasListKey(deps);
    SoleName(deps, a, op, s, Version(t));
    SoleName(deps, b, op, t, Version(t));
    TwoNames(Pick, deps, a, b, Version(t));
  }

  lemma TwoNames(pick: Picker, deps: seq<Dependency>, a: string, b: string, leftover: Value)
    ensures var (d, last) := RestrictName(pick, deps, a, leftover);
            RestrictNames(pick, deps, [a, b], 0, leftover) == [d, RestrictName(pick, deps, b, last).0]
  {
    var (d, last) := RestrictName(pick, deps, a, leftover);
    var (e, end) := RestrictName(pick, deps, b, last);
    assert RestrictNames(pick, deps, [a, b], 2, end) == [];
    assert RestrictNames(pick, deps, [a, b], 1, last) == [e] + [];
    assert RestrictNames(pick, deps, [a, b], 0, leftover) == [d] + [e];
  }

  /** A pinned version given alone is dropped: nothing is left of it. */
  lemma PinDropped(name: string, pin: string)
    ensures RestrictVersions([Dependency(name, [Single(pin)])]) == Ok([Restricted(name, [])])
    ensures !Accepts(pin + ".1", Single(pin))
  {
    var d := Dependency(name, [Single(pin)]);
    SoleDependency(d, name);
    DistinctOfDistinct([name]);
    assert d.spec[1..] == [] && Items(d.spec) == [] + [] && !HasListKey([d]);
    NothingLeft([d], name, Version(""));
    assert RestrictVersions([d]).value == [Restricted(name, [])];
    Neighbours(pin);
  }

  lemma NothingLeft(deps: seq<Dependency>, name: string, leftover: Value)
    requires Given(deps, name) == []
    ensures RestrictNames(Pick, deps, [name], 0, leftover) == [Restricted(name, [])]
  {
    assert Distinct(Keys([])) == [] && RestrictName(Pick, deps, name, leftover) == (Restricted(name, []), leftover);
    assert RestrictNames(Pick, deps, [name], 1, leftover) == [];
  }
}
