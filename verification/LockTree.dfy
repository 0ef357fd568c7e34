// The npm lock file: rebuilding it as nested lists
// (f8a_worker/data_normalizer/javascript.py), flattening them
// (f8a_worker/workers/graphaggregator.py) and collecting names from them
// (f8a_worker/workers/dependency_parser.py).
module LockTree {
  import opened Common
  import opened Versions

  // One entry of a level of the lock file: its name and the keys that are present. A missing
  // `dependencies` key is the empty level.
  datatype Node = Node(name: string, version: Option<string>, from: Option<string>, resolved: Option<string>,
                       dev: Option<bool>, dependencies: seq<Node>)

  datatype Item = Item(name: string, version: string, specification: Option<string>, resolved: Option<string>,
                       dependencies: seq<Item>, dev: bool)

  type Entry = (string, string)

  function OrElse<T>(o: Option<T>, default: T): T {
    if o.Some? then o.value else default
  }

  // ----- the code -----

  /** _process_level. */
  function Build(level: seq<Node>): seq<Item> {
    if level == [] then []
    else
      var data := level[0];
      [Item(data.name, OrElse(data.version, ""), data.from, data.resolved, Build(data.dependencies), OrElse(data.dev, false))]
      + Build(level[1..])
  }

  method ProcessLevel(level: seq<Node>, collect: seq<Item>) returns (c: seq<Item>)
    ensures c == collect + Build(level)
    decreases level
  {
    c := collect;
    assert level[0..] == level;
    for k := 0 to |level|
      invariant c + Build(level[k..]) == collect + Build(level)
    {
      var data := level[k];
      var deps := ProcessLevel(data.dependencies, []);
      assert level[k..][1..] == level[k + 1..];
      var item := Item(data.name, OrElse(data.version, ""), data.from, data.resolved, deps, OrElse(data.dev, false));
      assert [] + Build(data.dependencies) == Build(data.dependencies);
      assert Build(level[k..]) == [item] + Build(level[k + 1..]);
      c := c + [item];
    }
  }

  /** _flatten. */
  function Flatten(deps: seq<Item>): seq<Entry> {
    if deps == [] then [] else [(deps[0].name, deps[0].version)] + Flatten(deps[0].dependencies) + Flatten(deps[1..])
  }

  method FlattenInto(deps: seq<Item>, collect: seq<Entry>) returns (c: seq<Entry>)
    ensures c == collect + Flatten(deps)
    decreases deps
  {
    c := collect;
    assert deps[0..] == deps;
    for k := 0 to |deps|
      invariant c + Flatten(deps[k..]) == collect + Flatten(deps)
    {
      var dep := deps[k];
      assert deps[k..][1..] == deps[k + 1..];
      ghost var before := c;
      c := c + [(dep.name, dep.version)];
      c := FlattenInto(dep.dependencies, c);
      assert before + Flatten(deps[k..]) == c + Flatten(deps[k + 1..]);
    }
  }

  // ----- positions in the tree -----

  /** A path leads through the levels by positions. */
  predicate ValidPath(level: seq<Node>, path: seq<int>)
    decreases |path|
  {
    path != [] && 0 <= path[0] < |level| && (|path| == 1 || ValidPath(level[path[0]].dependencies, path[1..]))
  }

  function NodeAt(level: seq<Node>, path: seq<int>): Node
    requires ValidPath(level, path)
    decreases |path|
  {
    if |path| == 1 then level[path[0]] else NodeAt(level[path[0]].dependencies, path[1..])
  }

  function EntryOf(n: Node): Entry {
    (n.name, OrElse(n.version, ""))
  }

  function Under(i: int, paths: seq<seq<int>>): seq<seq<int>> {
    seq(|paths|, k requires 0 <= k < |paths| => [i] + paths[k])
  }

  /** The paths of all nodes of a level whose first position is `i`. */
  function Paths(level: seq<Node>, i: nat): seq<seq<int>> {
    if level == [] then []
    else [[i]] + Under(i, Paths(level[0].dependencies, 0)) + Paths(level[1..], i + 1)
  }

  /** `paths` lists every path of the tree once, in pre-order: ascending, ancestors before descendants. */
  ghost predicate PreOrder(paths: seq<seq<int>>, level: seq<Node>) {
    && (forall p :: p in paths <==> ValidPath(level, p))
    && (forall i, j | 0 <= i < j < |paths| :: ListLess(paths[i], paths[j]))
  }

  /** A path shifted by the position of the first node of the rest of a level. */
  predicate ValidFrom(level: seq<Node>, i: nat, p: seq<int>) {
    p != [] && p[0] >= i && ValidPath(level, [p[0] - i] + p[1..])
  }

  lemma ShiftedPath(level: seq<Node>, i: nat, p: seq<int>)
    requires level != []
    ensures ValidFrom(level, i, p) <==>
            (p != [] && p[0] == i && (|p| == 1 || ValidPath(level[0].dependencies, p[1..]))) || ValidFrom(level[1..], i + 1, p)
  {
    if p != [] && p[0] > i {
      var (a, b) := ([p[0] - i] + p[1..], [p[0] - (i + 1)] + p[1..]);
      assert a[1..] == p[1..] == b[1..];
      if p[0] - i < |level| {
        assert level[p[0] - i] == level[1..][p[0] - i - 1];
      }
    } else if p != [] && p[0] == i {
      assert ([0] + p[1..])[1..] == p[1..];
    }
  }

  lemma {:induction false} PathsComplete(level: seq<Node>, i: nat, p: seq<int>)
    ensures p in Paths(level, i) <==> ValidFrom(level, i, p)
    decreases level
  {
    if level != [] {
      var inner := Paths(level[0].dependencies, 0);
      PathsComplete(level[1..], i + 1, p);
      ShiftedPath(level, i, p);
      if p != [] && p[0] == i && |p| > 1 {
        PathsComplete(level[0].dependencies, 0, p[1..]);
        assert [p[1]] + p[2..] == p[1..] && p == [i] + p[1..];
        if p[1..] in inner {
          var k :| 0 <= k < |inner| && inner[k] == p[1..];
          assert Under(i, inner)[k] == p;
        }
      }
      if p in Under(i, inner) {
        var k :| 0 <= k < |inner| && Under(i, inner)[k] == p;
        assert p[1..] == inner[k];
        PathsComplete(level[0].dependencies, 0, inner[k]);
        assert [inner[k][0]] + inner[k][1..] == inner[k];
      }
      if p == [i] {
        assert p in Paths(level, i);
      }
    }
  }

  lemma {:induction false} PathsAscend(level: seq<Node>, i: nat)
    ensures forall a, b | 0 <= a < b < |Paths(level, i)| :: ListLess(Paths(level, i)[a], Paths(level, i)[b])
    decreases level
  {
    if level != [] {
      var inner := Paths(level[0].dependencies, 0);
      var (under, rest) := (Under(i, inner), Paths(level[1..], i + 1));
      PathsAscend(level[0].dependencies, 0);
      PathsAscend(level[1..], i + 1);
      forall k | 0 <= k < |inner| ensures inner[k] != [] {
        assert inner[k] in inner;
        PathsComplete(level[0].dependencies, 0, inner[k]);
      }
      forall k | 0 <= k < |rest| ensures rest[k] != [] && rest[k][0] > i {
        assert rest[k] in rest;
        PathsComplete(level[1..], i + 1, rest[k]);
      }
      forall a, b | 0 <= a < b < |under| ensures ListLess(under[a], under[b]) {
        assert under[a][1..] == inner[a] && under[b][1..] == inner[b];
      }
      forall b | 0 <= b < |under| ensures ListLess([i], under[b]) {
        assert under[b][1..] == inner[b];
      }
    }
  }

  lemma {:induction false} FlattenPaths(level: seq<Node>, whole: seq<Node>, i: nat)
    requires i <= |whole| && level == whole[i..]
    ensures |Flatten(Build(level))| == |Paths(level, i)|
    ensures forall k | 0 <= k < |Paths(level, i)| ::
              ValidPath(whole, Paths(level, i)[k]) && Flatten(Build(level))[k] == EntryOf(NodeAt(whole, Paths(level, i)[k]))
    decreases level
  {
    if level != [] {
      var data := level[0];
      assert data == whole[i];
      var inner := Paths(data.dependencies, 0);
      var (head, rest) := (Flatten(Build(data.dependencies)), Flatten(Build(level[1..])));
      FlattenPaths(data.dependencies, data.dependencies, 0);
      FlattenPaths(level[1..], whole, i + 1);
      assert Build(level)[1..] == Build(level[1..]);
      assert Flatten(Build(level)) == [EntryOf(data)] + head + rest;
      forall k | 0 <= k < |inner|
        ensures ValidPath(whole, [i] + inner[k]) && NodeAt(whole, [i] + inner[k]) == NodeAt(data.dependencies, inner[k])
      {
      }
      assert ValidPath(whole, [i]) && NodeAt(whole, [i]) == data;
    }
  }

  /** Flattening the rebuilt lists yields exactly one entry for each node of the lock file, in pre-order,
      with the empty text for a missing version. */
  lemma FlattenConserves(level: seq<Node>)
    ensures PreOrder(Paths(level, 0), level)
    ensures |Flatten(Build(level))| == |Paths(level, 0)|
    ensures forall k | 0 <= k < |Paths(level, 0)| ::
              ValidPath(level, Paths(level, 0)[k]) && Flatten(Build(level))[k] == EntryOf(NodeAt(level, Paths(level, 0)[k]))
  {
    PathsAscend(level, 0);
    forall p ensures p in Paths(level, 0) <==> ValidPath(level, p) {
      PathsComplete(level, 0, p);
      if p != [] {
        assert [p[0] - 0] + p[1..] == p;
      }
    }
    assert level[0..] == level;
    FlattenPaths(level, level, 0);
  }

  // ----- what stands at each path -----

  predicate ValidItemPath(items: seq<Item>, path: seq<int>)
    decreases |path|
  {
    path != [] && 0 <= path[0] < |items| && (|path| == 1 || ValidItemPath(items[path[0]].dependencies, path[1..]))
  }

  function ItemAt(items: seq<Item>, path: seq<int>): Item
    requires ValidItemPath(items, path)
    decreases |path|
  {
    if |path| == 1 then items[path[0]] else ItemAt(items[path[0]].dependencies, path[1..])
  }

  /** The item holds what the entry of the lock file says, a missing version being empty and a missing
      dev mark no mark. */
  ghost predicate Rebuilt(i: Item, n: Node) {
    && i.name == n.name && i.version == (if n.version.Some? then n.version.value else "")
    && i.specification == n.from && i.resolved == n.resolved
    && (i.dev <==> n.dev == Some(true))
    && |i.dependencies| == |n.dependencies|
  }

  lemma {:induction false} BuildAt(level: seq<Node>, k: nat)
    ensures |Build(level)| == |level|
    ensures k < |level| ==> Rebuilt(Build(level)[k], level[k]) && Build(level)[k].dependencies == Build(level[k].dependencies)
    decreases level
  {
    if level != [] {
      BuildAt(level[1..], if k > 0 then k - 1 else 0);
      BuildAt(level[0].dependencies, 0);
    }
  }

  /** The rebuilt list has the shape of the lock file, and at every path the item for the node there. */
  lemma {:induction false} BuildKeeps(level: seq<Node>, path: seq<int>)
    ensures ValidItemPath(Build(level), path) <==> ValidPath(level, path)
    ensures ValidPath(level, path) ==> Rebuilt(ItemAt(Build(level), path), NodeAt(level, path))
    decreases |path|
  {
    BuildAt(level, 0);
    if path != [] && 0 <= path[0] < |level| {
      BuildAt(level, path[0]);
      if |path| > 1 {
        BuildKeeps(level[path[0]].dependencies, path[1..]);
      }
    }
  }
}
