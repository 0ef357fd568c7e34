// NpmDependencyParser.restrict_versions (f8a_worker/solver.py): one comparator
// per package name and operator, the most restricting one.
module Restrict {
  import opened Common
  import opened Sorting
  import opened Versions
  import opened Dependencies
  import opened Bounds

  // What an entry of length two unpacks into: a tuple into its operator and its version, a list of two
  // into its elements, which then stand in the places of an operator and a version.
  datatype Key = Token(op: Op) | Element(first: Spec)

  datatype Value = Version(text: string) | Other(second: Spec)

  datatype Item = Item(key: Key, version: Value)

  // One dependency of the result.
  datatype Restricted = Restricted(name: string, items: seq<Item>)

  /** `operator, version = spec`; entries of another length are skipped. */
  function Unpack(s: Spec): seq<Item> {
    match s
    case Pair(op, version) => [Item(Token(op), Version(version))]
    case Single(_) => []
    case Conj(items) => if |items| == 2 then [Item(Element(items[0]), Other(items[1]))] else []
  }

  /** A list cannot be the key of a dict. */
  predicate ListKey(s: Spec) {
    s.Conj? && |s.items| == 2 && s.items[0].Conj?
  }

  predicate HasListKey(deps: seq<Dependency>) {
    exists d :: d in deps && exists s :: s in d.spec && ListKey(s)
  }

  function Items(spec: seq<Spec>): seq<Item> {
    if spec == [] then [] else Unpack(spec[0]) + Items(spec[1..])
  }

  /** First occurrences, in order: the keys of a dict filled from `s`. */
  function Distinct<T(==)>(s: seq<T>): seq<T> {
    if s == [] then []
    else
      var d := Distinct(s[..|s| - 1]);
      if s[|s| - 1] in d then d else d + [s[|s| - 1]]
  }

  function Names(deps: seq<Dependency>): seq<string> {
    if deps == [] then [] else [deps[0].name] + Names(deps[1..])
  }

  function Own(d: Dependency, name: string): seq<Item> {
    if d.name == name then Items(d.spec) else []
  }

  /** What is unpacked for `name`, in order. */
  function Given(deps: seq<Dependency>, name: string): seq<Item> {
    if deps == [] then [] else Own(deps[0], name) + Given(deps[1..], name)
  }

  function AllItems(deps: seq<Dependency>): seq<Item> {
    if deps == [] then [] else Items(deps[0].spec) + AllItems(deps[1..])
  }

  function Keys(items: seq<Item>): seq<Key> {
    if items == [] then [] else [items[0].key] + Keys(items[1..])
  }

  function VersionsOf(items: seq<Item>, key: Key): seq<Value> {
    if items == [] then []
    else (if items[0].key == key then [items[0].version] else []) + VersionsOf(items[1..], key)
  }

  function LastVersion(items: seq<Item>, before: Value): Value {
    if items == [] then before else items[|items| - 1].version
  }

  predicate IsBoundKey(key: Key) {
    key.Token? && IsBound(key.op)
  }

  // ----- specification of the code -----

  /** The texts to sort; only an operator token makes a bound, and with it comes a version text. */
  function VersionTexts(versions: seq<Value>): seq<string> {
    if versions == [] then [] else (if versions[0].Version? then [versions[0].text] else []) + VersionTexts(versions[1..])
  }

  /** The version appended for a key. Other keys get whatever `version` was left before. */
  function Pick(key: Key, versions: seq<Value>, leftover: Value): Value {
    if VersionTexts(versions) == [] || !IsBoundKey(key) then leftover
    else
      var sorted := Sort(VersionTexts(versions), AtMost);
      SortKeeps(VersionTexts(versions), AtMost);
      Version(if IsLower(key.op) then sorted[|sorted| - 1] else sorted[0])
  }

  /** How the version for a key is picked from those given and the leftover one. */
  type Picker = (Key, seq<Value>, Value) -> Value

  /** What the restricting loop appends for one name, and what it leaves in `version`. */
  function RestrictGroups(pick: Picker, items: seq<Item>, keys: seq<Key>, leftover: Value): (seq<Item>, Value) {
    if keys == [] then ([], leftover)
    else
      var version := pick(keys[0], VersionsOf(items, keys[0]), leftover);
      var (rest, last) := RestrictGroups(pick, items, keys[1..], version);
      ([Item(keys[0], version)] + rest, last)
  }

  function RestrictName(pick: Picker, deps: seq<Dependency>, name: string, leftover: Value): (Restricted, Value) {
    var items := Given(deps, name);
    var (left, last) := RestrictGroups(pick, items, Distinct(Keys(items)), leftover);
    (Restricted(name, left), last)
  }

  /** The result for the names from position `n` on. */
  function RestrictNames(pick: Picker, deps: seq<Dependency>, names: seq<string>, n: nat, leftover: Value): seq<Restricted>
    requires n <= |names|
    decreases |names| - n
  {
    if n == |names| then []
    else
      var (d, last) := RestrictName(pick, deps, names[n], leftover);
      [d] + RestrictNames(pick, deps, names, n + 1, last)
  }

  /** The value the collecting loops leave in `version`. */
  function Collected(deps: seq<Dependency>): Value {
    LastVersion(AllItems(deps), Version(""))
  }

  function RestrictVersions(deps: seq<Dependency>): Result<seq<Restricted>> {
    if HasListKey(deps) then Err(TypeError)
    else Ok(RestrictNames(Pick, deps, Distinct(Names(deps)), 0, Collected(deps)))
  }

  // ----- the code: a dict of dicts of lists, then back to a list -----

  datatype OrderedDict<K(==), V> = OrderedDict(keys: seq<K>, vals: map<K, V>)

  type Groups = OrderedDict<Key, seq<Value>>

  ghost predicate Grouped(g: Groups, items: seq<Item>) {
    && g.keys == Distinct(Keys(items))
    && (forall key :: key in g.vals <==> key in g.keys)
    && (forall key | key in g.vals :: g.vals[key] == VersionsOf(items, key))
  }

  ghost predicate IsDictOf(dict: OrderedDict<string, Groups>, deps: seq<Dependency>) {
    && dict.keys == Distinct(Names(deps))
    && (forall name :: name in dict.vals <==> name in dict.keys)
    && (forall name | name in dict.vals :: Grouped(dict.vals[name], Given(deps, name)))
  }

  /** `groups[operator].append(version)` on a defaultdict(list). */
  function Append(g: Groups, i: Item): Groups {
    if i.key in g.vals then OrderedDict(g.keys, g.vals[i.key := g.vals[i.key] + [i.version]])
    else OrderedDict(g.keys + [i.key], g.vals[i.key := [i.version]])
  }

  method AddSpecs(groups: Groups, spec: seq<Spec>, before: Value, ghost items: seq<Item>)
    returns (r: Result<(Groups, Value)>)
    requires Grouped(groups, items)
    ensures r == Err(TypeError) || r.Ok?
    ensures r.Err? <==> exists s :: s in spec && ListKey(s)
    ensures r.Ok? ==> Grouped(r.value.0, items + Items(spec)) && r.value.1 == LastVersion(Items(spec), before)
  {
    var g, version := groups, before;
    assert items + [] == items;
    for k := 0 to |spec|
      invariant Grouped(g, items + Items(spec[..k])) && version == LastVersion(Items(spec[..k]), before)
      invariant forall s | s in spec[..k] :: !ListKey(s)
    {
      var s := spec[k];
      TakeNext(spec, k);
      ItemsConcat(spec[..k], [s]);
      assert [s][1..] == [] && Items([s]) == Unpack(s) + [] == Unpack(s);
      if s.Pair? || (s.Conj? && |s.items| == 2) {
        if ListKey(s) {
          return Err(TypeError);
        }
        var i := Unpack(s)[0];
        AddItem(g, items + Items(spec[..k]), i);
        Associate(items, Items(spec[..k]), [i]);
        version := i.version;
        g := Append(g, i);
      } else {
        assert Items(spec[..k]) + [] == Items(spec[..k]);
      }
    }
    assert spec[..|spec|] == spec;
    r := Ok((g, version));
  }

  method Collect(deps: seq<Dependency>) returns (r: Result<(OrderedDict<string, Groups>, Value)>)
    ensures r == Err(TypeError) || r.Ok?
    ensures r.Err? <==> HasListKey(deps)
    ensures r.Ok? ==> IsDictOf(r.value.0, deps) && r.value.1 == Collected(deps)
  {
    var dict: OrderedDict<string, Groups> := OrderedDict([], map[]);
    var version := Version("");
    for k := 0 to |deps|
      invariant IsDictOf(dict, deps[..k]) && version == Collected(deps[..k])
      invariant !HasListKey(deps[..k])
    {
      var dp := deps[k];
      TakeNext(deps, k);
      assert dp in deps;
      var groups := if dp.name in dict.vals then dict.vals[dp.name] else OrderedDict([], map[]);
      if dp.name !in dict.vals {
        GivenAbsent(deps[..k], dp.name);
      }
      var added := AddSpecs(groups, dp.spec, version, Given(deps[..k], dp.name));
      if added.Err? {
        return Err(TypeError);
      }
      DictStep(dict, deps[..k], dp, added.value.0);
      AllItemsSnoc(deps[..k], dp);
      dict, version := SetGroups(dict, dp.name, added.value.0), added.value.1;
    }
    assert deps[..|deps|] == deps;
    r := Ok((dict, version));
  }

  function SetGroups(dict: OrderedDict<string, Groups>, name: string, groups: Groups): OrderedDict<string, Groups> {
    OrderedDict(if name in dict.vals then dict.keys else dict.keys + [name], dict.vals[name := groups])
  }

  method RestrictGroup(groups: Groups, before: Value, ghost items: seq<Item>)
    returns (specs: seq<Item>, version: Value)
    requires Grouped(groups, items) && Typed(items)
    ensures (specs, version) == RestrictGroups(Pick, items, Distinct(Keys(items)), before)
  {
    specs, version := [], before;
    ghost var all := RestrictGroups(Pick, items, groups.keys, before);
    assert groups.keys[0..] == groups.keys && [] + all.0 == all.0;
    for k := 0 to |groups.keys|
      invariant specs + RestrictGroups(Pick, items, groups.keys[k..], version).0 == all.0
      invariant RestrictGroups(Pick, items, groups.keys[k..], version).1 == all.1
    {
      var key := groups.keys[k];
      GroupedAt(groups, items, k);
      var versions := groups.vals[key];
      GroupsStep(Pick, items, groups.keys, k, version, specs);
      version := ChooseVersion(key, versions, version);
      specs := specs + [Item(key, version)];
    }
    assert groups.keys[|groups.keys|..] == [] && specs + [] == specs;
  }

  method ChooseVersion(key: Key, versions: seq<Value>, before: Value) returns (version: Value)
    requires IsBoundKey(key) ==> VersionTexts(versions) != []
    ensures version == Pick(key, versions, before)
  {
    version := before;
    if IsBoundKey(key) {
      SortKeeps(VersionTexts(versions), AtMost);
      var sorted := Sort(VersionTexts(versions), AtMost);
      if key.op in {GT, GTE} {
        version := Version(sorted[|sorted| - 1]);
      } else if key.op in {LT, LTE} {
        version := Version(sorted[0]);
      }
    }
  }

  method RestrictOne(groups: Groups, name: string, before: Value, ghost deps: seq<Dependency>)
    returns (d: Restricted, version: Value)
    requires Grouped(groups, Given(deps, name))
    ensures (d, version) == RestrictName(Pick, deps, name, before)
  {
    var specs;
    GivenTyped(deps, name);
    specs, version := RestrictGroup(groups, before, Given(deps, name));
    d := Restricted(name, specs);
  }

  ghost predicate GroupedFor(name: string, vals: map<string, Groups>, deps: seq<Dependency>) {
    name in vals && Grouped(vals[name], Given(deps, name))
  }

  /** The loop over the collected names. */
  method BackToList(names: seq<string>, vals: map<string, Groups>, before: Value, ghost deps: seq<Dependency>)
    returns (result: seq<Restricted>)
    requires forall n | 0 <= n < |names| :: GroupedFor(names[n], vals, deps)
    ensures result == RestrictNames(Pick, deps, names, 0, before)
  {
    result := [];
    var version := before;
    for n := 0 to |names|
      invariant result + RestrictNames(Pick, deps, names, n, version) == RestrictNames(Pick, deps, names, 0, before)
    {
      ghost var left := version;
      assert GroupedFor(names[n], vals, deps);
      var d;
      d, version := RestrictOne(vals[names[n]], names[n], version, deps);
      NamesStep(Pick, deps, names, n, left, result, d, version);
      result := result + [d];
    }
  }

  method RestrictAll(deps: seq<Dependency>) returns (result: Result<seq<Restricted>>)
    ensures result == RestrictVersions(deps)
  {
    var collected := Collect(deps);
    if collected.Err? {
      return Err(TypeError);
    }
    var (dict, version) := collected.value;
    forall n | 0 <= n < |dict.keys| ensures GroupedFor(dict.keys[n], dict.vals, deps) {
      assert dict.keys[n] in dict.keys;
    }
    var restricted := BackToList(dict.keys, dict.vals, version, deps);
    result := Ok(restricted);
  }

  // ----- lemmas about the loops -----

  lemma GroupsStep(pick: Picker, items: seq<Item>, keys: seq<Key>, k: nat, leftover: Value, specs: seq<Item>)
    requires k < |keys|
    ensures var version := pick(keys[k], VersionsOf(items, keys[k]), leftover);
            var (rest, more) := (RestrictGroups(pick, items, keys[k..], leftover), RestrictGroups(pick, items, keys[k + 1..], version));
            specs + rest.0 == (specs + [Item(keys[k], version)]) + more.0 && rest.1 == more.1
  {
    var version := pick(keys[k], VersionsOf(items, keys[k]), leftover);
    DropNext(keys, k);
    Associate(specs, [Item(keys[k], version)], RestrictGroups(pick, items, keys[k + 1..], version).0);
  }

  lemma NamesStep(pick: Picker, deps: seq<Dependency>, names: seq<string>, n: nat, leftover: Value,
                  result: seq<Restricted>, d: Restricted, last: Value)
    requires n < |names| && (d, last) == RestrictName(pick, deps, names[n], leftover)
    ensures result + RestrictNames(pick, deps, names, n, leftover) == (result + [d]) + RestrictNames(pick, deps, names, n + 1, last)
  {
    Associate(result, [d], RestrictNames(pick, deps, names, n + 1, last));
  }

  lemma {:induction false} DistinctMembers<T>(s: seq<T>)
    ensures forall x :: x in Distinct(s) <==> x in s
    ensures forall i, j | 0 <= i < j < |Distinct(s)| :: Distinct(s)[i] != Distinct(s)[j]
  {
    if s != [] {
      DistinctMembers(s[..|s| - 1]);
      assert s == s[..|s| - 1] + [s[|s| - 1]];
    }
  }

  lemma {:induction false} DistinctOfDistinct<T>(s: seq<T>)
    requires forall i, j | 0 <= i < j < |s| :: s[i] != s[j]
    ensures Distinct(s) == s
  {
    if s != [] {
      DistinctOfDistinct(s[..|s| - 1]);
      assert s == s[..|s| - 1] + [s[|s| - 1]];
    }
  }

  lemma {:induction false} ItemsConcat(a: seq<Spec>, b: seq<Spec>)
    ensures Items(a + b) == Items(a) + Items(b)
  {
    if a == [] {
      assert a + b == b;
    } else {
      assert (a + b)[1..] == a[1..] + b;
      ItemsConcat(a[1..], b);
      Associate(Unpack(a[0]), Items(a[1..]), Items(b));
    }
  }

  lemma {:induction false} AllItemsSnoc(deps: seq<Dependency>, d: Dependency)
    ensures AllItems(deps + [d]) == AllItems(deps) + Items(d.spec)
  {
    if deps == [] {
      assert deps + [d] == [d] && Items(d.spec) + [] == [] + Items(d.spec);
    } else {
      assert (deps + [d])[1..] == deps[1..] + [d];
      AllItemsSnoc(deps[1..], d);
      Associate(Items(deps[0].spec), AllItems(deps[1..]), Items(d.spec));
    }
  }

  lemma {:induction false} KeysSnoc(items: seq<Item>, i: Item)
    ensures Keys(items + [i]) == Keys(items) + [i.key]
  {
    if items == [] {
      assert items + [i] == [i];
    } else {
      assert (items + [i])[1..] == items[1..] + [i];
      KeysSnoc(items[1..], i);
    }
  }

  lemma {:induction false} VersionsSnoc(items: seq<Item>, i: Item, key: Key)
    ensures VersionsOf(items + [i], key) == VersionsOf(items, key) + (if i.key == key then [i.version] else [])
  {
    var all := items + [i];
    if items == [] {
      assert all == [i] && all[1..] == [];
    } else {
      assert all[0] == items[0] && all[1..] == items[1..] + [i];
      VersionsSnoc(items[1..], i, key);
      Associate(if items[0].key == key then [items[0].version] else [],
                VersionsOf(items[1..], key), if i.key == key then [i.version] else []);
    }
  }

  lemma {:induction false} VersionsNonempty(items: seq<Item>, key: Key)
    ensures VersionsOf(items, key) != [] <==> key in Keys(items)
  {
    if items != [] {
      VersionsNonempty(items[1..], key);
    }
  }

  /** An operator token comes with a version text, an element with an entry. */
  ghost predicate Typed(items: seq<Item>) {
    forall i | i in items :: i.key.Token? <==> i.version.Version?
  }

  lemma {:induction false} ItemsTyped(spec: seq<Spec>)
    ensures Typed(Items(spec))
  {
    if spec != [] {
      ItemsTyped(spec[1..]);
    }
  }

  lemma {:induction false} GivenTyped(deps: seq<Dependency>, name: string)
    ensures Typed(Given(deps, name))
  {
    if deps != [] {
      ItemsTyped(deps[0].spec);
      GivenTyped(deps[1..], name);
    }
  }

  lemma {:induction false} TextsOfToken(items: seq<Item>, key: Key)
    requires Typed(items) && key.Token?
    ensures var versions := VersionsOf(items, key);
            |VersionTexts(versions)| == |versions| && forall k | 0 <= k < |versions| :: versions[k] == Version(VersionTexts(versions)[k])
  {
    if items != [] {
      assert items[0] in items;
      TextsOfToken(items[1..], key);
      var rest := VersionsOf(items[1..], key);
      if items[0].key == key {
        var all := [items[0].version] + rest;
        assert all[1..] == rest && all == VersionsOf(items, key);
        assert VersionTexts(all) == [items[0].version.text] + VersionTexts(rest);
      } else {
        assert [] + rest == rest;
      }
    }
  }

  lemma GroupedAt(g: Groups, items: seq<Item>, k: nat)
    requires Grouped(g, items) && Typed(items) && k < |g.keys|
    ensures g.keys[k] in g.vals && g.vals[g.keys[k]] == VersionsOf(items, g.keys[k]) != []
    ensures g.keys[k].Token? ==> VersionTexts(g.vals[g.keys[k]]) != []
  {
    assert g.keys[k] in g.keys;
    DistinctMembers(Keys(items));
    VersionsNonempty(items, g.keys[k]);
    if g.keys[k].Token? {
      TextsOfToken(items, g.keys[k]);
    }
  }

  lemma AddItem(g: Groups, items: seq<Item>, i: Item)
    requires Grouped(g, items)
    ensures Grouped(Append(g, i), items + [i])
  {
    var g' := Append(g, i);
    KeysSnoc(items, i);
    if i.key !in g.vals {
      DistinctMembers(Keys(items));
      VersionsNonempty(items, i.key);
    }
    forall key | key in g'.vals ensures g'.vals[key] == VersionsOf(items + [i], key) {
      VersionsSnoc(items, i, key);
    }
  }

  lemma {:induction false} NamesSnoc(deps: seq<Dependency>, d: Dependency)
    ensures Names(deps + [d]) == Names(deps) + [d.name]
  {
    if deps == [] {
      assert [] + [d] == [d];
    } else {
      assert (deps + [d])[1..] == deps[1..] + [d];
      NamesSnoc(deps[1..], d);
    }
  }

  lemma {:induction false} GivenConcat(deps: seq<Dependency>, d: Dependency, name: string)
    ensures Given(deps + [d], name) == Given(deps, name) + Own(d, name)
  {
    var all := deps + [d];
    if deps == [] {
      assert all == [d] && all[1..] == [];
      assert Own(d, name) + [] == [] + Own(d, name);
    } else {
      assert all[0] == deps[0] && all[1..] == deps[1..] + [d];
      GivenConcat(deps[1..], d, name);
      Associate(Own(deps[0], name), Given(deps[1..], name), Own(d, name));
    }
  }

  lemma {:induction false} GivenAbsent(deps: seq<Dependency>, name: string)
    ensures name !in Distinct(Names(deps)) ==> Given(deps, name) == []
  {
    DistinctMembers(Names(deps));
    if deps != [] {
      DistinctMembers(Names(deps[1..]));
      GivenAbsent(deps[1..], name);
    }
  }

  lemma DictStep(dict: OrderedDict<string, Groups>, deps: seq<Dependency>, dp: Dependency, groups: Groups)
    requires IsDictOf(dict, deps) && Grouped(groups, Given(deps, dp.name) + Items(dp.spec))
    ensures IsDictOf(SetGroups(dict, dp.name, groups), deps + [dp])
  {
    NamesSnoc(deps, dp);
    var next := SetGroups(dict, dp.name, groups);
    forall name | name in next.vals ensures Grouped(next.vals[name], Given(deps + [dp], name)) {
      GivenConcat(deps, dp, name);
      if name != dp.name {
        assert Given(deps, name) + [] == Given(deps, name);
      }
    }
  }
}
