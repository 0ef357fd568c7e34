// get_npm_dependencies (f8a_worker/workers/dependency_parser.py): the second
// reader of the rebuilt lock file.
module LockScan {
  import opened Common
  import opened Versions
  import opened LockTree

  function Label(name: string, version: string): string {
    "npm:" + name + ":" + version
  }

  function ItemLabel(i: Item): string {
    Label(i.name, i.version)
  }

  /** Top-level items and their direct dependencies; the dev mark of the top-level item decides for both. */
  method GetNpmDependencies(dependencies: seq<Item>) returns (names: set<string>)
    ensures names == Members(NpmLabels(dependencies))
  {
    names := {};
    for k := 0 to |dependencies|
      invariant names == Members(NpmLabels(dependencies[..k]))
    {
      var dependency := dependencies[k];
      TakeNext(dependencies, k);
      NpmSnoc(dependencies[..k], dependency);
      MembersConcat(NpmLabels(dependencies[..k]), OwnLabels(dependency));
      MembersConcat([ItemLabel(dependency)], Labels(dependency.dependencies));
      if !dependency.dev {
        names := names + {ItemLabel(dependency)};
      }
      names := AddTransitive(dependency, names);
    }
    assert dependencies[..|dependencies|] == dependencies;
  }

  method AddTransitive(dependency: Item, before: set<string>) returns (names: set<string>)
    ensures names == before + if dependency.dev then {} else Members(Labels(dependency.dependencies))
  {
    names := before;
    var deps := dependency.dependencies;
    for j := 0 to |deps|
      invariant names == before + if dependency.dev then {} else Members(Labels(deps[..j]))
    {
      TakeNext(deps, j);
      LabelsSnoc(deps[..j], deps[j]);
      MembersConcat(Labels(deps[..j]), [ItemLabel(deps[j])]);
      if !dependency.dev {
        names := names + {ItemLabel(deps[j])};
      }
    }
    assert deps[..|deps|] == deps;
  }

  function Labels(items: seq<Item>): seq<string> {
    if items == [] then [] else [ItemLabel(items[0])] + Labels(items[1..])
  }

  function OwnLabels(i: Item): seq<string> {
    if i.dev then [] else [ItemLabel(i)] + Labels(i.dependencies)
  }

  function NpmLabels(items: seq<Item>): seq<string> {
    if items == [] then [] else OwnLabels(items[0]) + NpmLabels(items[1..])
  }

  function Members(s: seq<string>): set<string> {
    set x | x in s
  }

  /** The labels of all entries of the flattened list. */
  function EntryLabels(entries: seq<Entry>): seq<string> {
    seq(|entries|, k requires 0 <= k < |entries| => Label(entries[k].0, entries[k].1))
  }

  /** No top-level item is marked dev, and nothing lies below the second level. */
  predicate TwoPlainLevels(items: seq<Item>) {
    forall i | i in items :: PlainItem(i)
  }

  lemma MembersConcat(a: seq<string>, b: seq<string>)
    ensures Members(a + b) == Members(a) + Members(b)
  {
  }

  lemma {:induction false} LabelsSnoc(items: seq<Item>, i: Item)
    ensures Labels(items + [i]) == Labels(items) + [ItemLabel(i)]
  {
    if items != [] {
      assert (items + [i])[1..] == items[1..] + [i];
      LabelsSnoc(items[1..], i);
    } else {
      assert [] + [i] == [i];
    }
  }

  lemma {:induction false} NpmSnoc(items: seq<Item>, i: Item)
    ensures NpmLabels(items + [i]) == NpmLabels(items) + OwnLabels(i)
  {
    if items != [] {
      assert (items + [i])[1..] == items[1..] + [i];
      NpmSnoc(items[1..], i);
    } else {
      assert [] + [i] == [i] && [i][1..] == [];
    }
  }

  lemma EntryLabelsConcat(a: seq<Entry>, b: seq<Entry>)
    ensures EntryLabels(a + b) == EntryLabels(a) + EntryLabels(b)
  {
  }

  /** The children appear among the flattened descendants; the counts agree only without grandchildren. */
  lemma {:induction false} ChildrenWithin(items: seq<Item>)
    ensures Members(Labels(items)) <= Members(EntryLabels(Flatten(items)))
    ensures |Labels(items)| <= |Flatten(items)|
    ensures |Labels(items)| == |Flatten(items)| <==> forall t | t in items :: t.dependencies == []
  {
    if items != [] {
      var (head, deep, rest) := ([(items[0].name, items[0].version)], Flatten(items[0].dependencies), Flatten(items[1..]));
      ChildrenWithin(items[1..]);
      EntryLabelsConcat(head + deep, rest);
      EntryLabelsConcat(head, deep);
      MembersConcat(EntryLabels(head + deep), EntryLabels(rest));
      MembersConcat(EntryLabels(head), EntryLabels(deep));
      MembersConcat([ItemLabel(items[0])], Labels(items[1..]));
      assert EntryLabels(head) == [ItemLabel(items[0])];
      assert items == [items[0]] + items[1..];
    }
  }

  /** The labels of one item and of everything below it. */
  function DeepLabels(i: Item): seq<string> {
    [ItemLabel(i)] + EntryLabels(Flatten(i.dependencies))
  }

  predicate PlainItem(i: Item) {
    !i.dev && forall t | t in i.dependencies :: t.dependencies == []
  }

  lemma FlattenLabels(items: seq<Item>)
    requires items != []
    ensures EntryLabels(Flatten(items)) == DeepLabels(items[0]) + EntryLabels(Flatten(items[1..]))
  {
    var i := items[0];
    var (head, deep, rest) := ([(i.name, i.version)], Flatten(i.dependencies), Flatten(items[1..]));
    EntryLabelsConcat(head + deep, rest);
    EntryLabelsConcat(head, deep);
    assert EntryLabels(head) == [ItemLabel(i)];
  }

  lemma OwnWithin(i: Item)
    ensures Members(OwnLabels(i)) <= Members(DeepLabels(i)) && |OwnLabels(i)| <= |DeepLabels(i)|
    ensures |OwnLabels(i)| == |DeepLabels(i)| <==> PlainItem(i)
    ensures PlainItem(i) ==> OwnLabels(i) == DeepLabels(i)
  {
    ChildrenWithin(i.dependencies);
    MembersConcat([ItemLabel(i)], EntryLabels(Flatten(i.dependencies)));
    MembersConcat([ItemLabel(i)], Labels(i.dependencies));
    if PlainItem(i) {
      FlatChildren(i.dependencies);
    }
  }

  lemma {:induction false} NpmWithin(items: seq<Item>)
    ensures Members(NpmLabels(items)) <= Members(EntryLabels(Flatten(items)))
    ensures |NpmLabels(items)| <= |EntryLabels(Flatten(items))|
    ensures |NpmLabels(items)| == |EntryLabels(Flatten(items))| <==> TwoPlainLevels(items)
    ensures TwoPlainLevels(items) ==> NpmLabels(items) == EntryLabels(Flatten(items))
  {
    if items != [] {
      NpmWithin(items[1..]);
      OwnWithin(items[0]);
      FlattenLabels(items);
      MembersConcat(OwnLabels(items[0]), NpmLabels(items[1..]));
      MembersConcat(DeepLabels(items[0]), EntryLabels(Flatten(items[1..])));
      assert items == [items[0]] + items[1..];
      assert TwoPlainLevels(items) <==> PlainItem(items[0]) && TwoPlainLevels(items[1..]);
    }
  }

  lemma {:induction false} FlatChildren(items: seq<Item>)
    requires forall t | t in items :: t.dependencies == []
    ensures EntryLabels(Flatten(items)) == Labels(items)
  {
    if items != [] {
      assert items[0] in items;
      FlatChildren(items[1..]);
      assert Flatten(items) == [(items[0].name, items[0].version)] + Flatten(items[1..]);
      EntryLabelsConcat([(items[0].name, items[0].version)], Flatten(items[1..]));
    }
  }

  lemma {:induction false} MembersCount(s: seq<string>)
    ensures |Members(s)| <= |s|
    ensures (forall i, j | 0 <= i < j < |s| :: s[i] != s[j]) ==> |Members(s)| == |s|
  {
    if s != [] {
      MembersCount(s[1..]);
      assert Members(s) == {s[0]} + Members(s[1..]);
      if s[0] in s[1..] {
        assert Members(s) == Members(s[1..]);
      }
    }
  }

  // ----- in terms of the lock file -----

  function NodeLabel(n: Node): string {
    "npm:" + n.name + ":" + (if n.version.Some? then n.version.value else "")
  }

  predicate IsDev(n: Node) {
    n.dev == Some(true)
  }

  /** No node of the first level is marked dev, and nothing lies below the second level. */
  predicate TwoPlain(level: seq<Node>) {
    forall n | n in level :: !IsDev(n) && forall t | t in n.dependencies :: t.dependencies == []
  }

  /** No two nodes of the tree share name and version. */
  ghost predicate DistinctNodes(level: seq<Node>) {
    forall p, q | ValidPath(level, p) && ValidPath(level, q) && NodeLabel(NodeAt(level, p)) == NodeLabel(NodeAt(level, q)) ::
      p == q
  }

  lemma PlainOfBuild(level: seq<Node>)
    ensures TwoPlainLevels(Build(level)) <==> TwoPlain(level)
  {
    BuildAt(level, 0);
    forall k | 0 <= k < |level|
      ensures PlainItem(Build(level)[k]) <==> !IsDev(level[k]) && forall t | t in level[k].dependencies :: t.dependencies == []
    {
      BuildAt(level, k);
      LeavesOfBuild(level[k].dependencies);
    }
    forall i | i in Build(level) ensures exists k :: 0 <= k < |level| && Build(level)[k] == i {
    }
    assert forall k | 0 <= k < |level| :: level[k] in level && Build(level)[k] in Build(level);
  }

  lemma LeavesOfBuild(level: seq<Node>)
    ensures (forall i | i in Build(level) :: i.dependencies == []) <==> forall n | n in level :: n.dependencies == []
  {
    BuildAt(level, 0);
    forall k | 0 <= k < |level| ensures Build(level)[k].dependencies == [] <==> level[k].dependencies == [] {
      BuildAt(level, k);
    }
    assert forall k | 0 <= k < |level| :: level[k] in level && Build(level)[k] in Build(level);
  }

  /** The flattened labels are those of all nodes, in the order of their paths. */
  lemma LabelsOfNodes(level: seq<Node>)
    ensures var all := EntryLabels(Flatten(Build(level)));
            && |all| == |Paths(level, 0)|
            && (forall k | 0 <= k < |all| ::
                  ValidPath(level, Paths(level, 0)[k]) && all[k] == NodeLabel(NodeAt(level, Paths(level, 0)[k])))
            && (forall p :: p in Paths(level, 0) <==> ValidPath(level, p))
            && (DistinctNodes(level) ==> forall i, j | 0 <= i < j < |all| :: all[i] != all[j])
  {
    FlattenConserves(level);
    var paths := Paths(level, 0);
    forall i, j | 0 <= i < j < |paths| ensures paths[i] != paths[j] {
      NotLess(paths[i]);
    }
  }

  lemma {:induction false} NotLess(x: seq<int>)
    ensures !ListLess(x, x)
  {
    if x != [] {
      NotLess(x[1..]);
    }
  }

  /** Some node of the tree has this label. */
  ghost predicate Named(level: seq<Node>, text: string) {
    exists p :: ValidPath(level, p) && text == NodeLabel(NodeAt(level, p))
  }

  lemma NamedMembers(level: seq<Node>, x: string)
    ensures x in Members(EntryLabels(Flatten(Build(level)))) <==> Named(level, x)
  {
    var (all, paths) := (EntryLabels(Flatten(Build(level))), Paths(level, 0));
    LabelsOfNodes(level);
    if x in all {
      var k :| 0 <= k < |all| && all[k] == x;
      assert ValidPath(level, paths[k]);
    }
    if p :| ValidPath(level, p) && x == NodeLabel(NodeAt(level, p)) {
      var k :| 0 <= k < |paths| && paths[k] == p;
      assert all[k] == x;
    }
  }

  /** The collected names are names of nodes; when no two nodes share name and version, they are the names of
      all nodes exactly on trees of at most two levels without dev marks at the top. */
  lemma NpmExact(level: seq<Node>)
    ensures var npm := Members(NpmLabels(Build(level)));
            && (forall x | x in npm :: Named(level, x))
            && (TwoPlain(level) ==> forall x | Named(level, x) :: x in npm)
            && (DistinctNodes(level) ==> ((forall x | Named(level, x) :: x in npm) <==> TwoPlain(level)))
  {
    var items := Build(level);
    var (npm, all) := (Members(NpmLabels(items)), EntryLabels(Flatten(items)));
    NpmWithin(items);
    MembersCount(NpmLabels(items));
    MembersCount(all);
    PlainOfBuild(level);
    LabelsOfNodes(level);
    forall x ensures x in Members(all) <==> Named(level, x) {
      NamedMembers(level, x);
    }
    assert (forall x | Named(level, x) :: x in npm) <==> npm == Members(all);
  }

  // ----- whose dev mark decides -----

  /** One of the first two levels: its label, whether the code keeps it, and whether its own mark
      would. */
  datatype Marked = Marked(text: string, kept: bool, plain: bool)

  function MarkedChildren(items: seq<Item>, kept: bool): seq<Marked> {
    if items == [] then [] else [Marked(ItemLabel(items[0]), kept, !items[0].dev)] + MarkedChildren(items[1..], kept)
  }

  function TwoLevels(items: seq<Item>): seq<Marked> {
    if items == [] then []
    else
      var i := items[0];
      [Marked(ItemLabel(i), !i.dev, !i.dev)] + MarkedChildren(i.dependencies, !i.dev) + TwoLevels(items[1..])
  }

  ghost predicate DistinctLabels(all: seq<Marked>) {
    forall i, j | 0 <= i < j < |all| :: all[i].text != all[j].text
  }

  function Kept(all: seq<Marked>): set<string> {
    set m | m in all && m.kept :: m.text
  }

  function Plain(all: seq<Marked>): set<string> {
    set m | m in all && m.plain :: m.text
  }

  lemma KeptConcat(a: seq<Marked>, b: seq<Marked>)
    ensures Kept(a + b) == Kept(a) + Kept(b) && Plain(a + b) == Plain(a) + Plain(b)
  {
  }

  lemma KeptSingle(m: Marked)
    ensures Kept([m]) == (if m.kept then {m.text} else {}) && Plain([m]) == (if m.plain then {m.text} else {})
  {
    assert [m][0] == m;
  }

  lemma {:induction false} ChildrenMarked(items: seq<Item>, kept: bool)
    ensures Kept(MarkedChildren(items, kept)) == if kept then Members(Labels(items)) else {}
  {
    if items != [] {
      var (t, rest) := (items[0], items[1..]);
      var mark := Marked(ItemLabel(t), kept, !t.dev);
      ChildrenMarked(rest, kept);
      KeptConcat([mark], MarkedChildren(rest, kept));
      KeptSingle(mark);
      MembersConcat([ItemLabel(t)], Labels(rest));
    }
  }

  /** What the code collects are the kept ones. */
  lemma {:induction false} LevelsMarked(items: seq<Item>)
    ensures Kept(TwoLevels(items)) == Members(NpmLabels(items))
  {
    if items != [] {
      var (i, rest) := (items[0], items[1..]);
      var mark := Marked(ItemLabel(i), !i.dev, !i.dev);
      LevelsMarked(rest);
      ChildrenMarked(i.dependencies, !i.dev);
      KeptConcat([mark] + MarkedChildren(i.dependencies, !i.dev), TwoLevels(rest));
      KeptConcat([mark], MarkedChildren(i.dependencies, !i.dev));
      KeptSingle(mark);
      MembersConcat(OwnLabels(i), NpmLabels(rest));
      MembersConcat([ItemLabel(i)], Labels(i.dependencies));
    }
  }

  /** The same list read off the lock file. */
  function NodeChildren(nodes: seq<Node>, kept: bool): seq<Marked> {
    if nodes == [] then [] else [Marked(NodeLabel(nodes[0]), kept, !IsDev(nodes[0]))] + NodeChildren(nodes[1..], kept)
  }

  function NodeLevels(level: seq<Node>): seq<Marked> {
    if level == [] then []
    else
      var n := level[0];
      [Marked(NodeLabel(n), !IsDev(n), !IsDev(n))] + NodeChildren(n.dependencies, !IsDev(n)) + NodeLevels(level[1..])
  }

  lemma BuildCons(level: seq<Node>)
    requires level != []
    ensures Build(level) != [] && Build(level)[1..] == Build(level[1..])
    ensures Rebuilt(Build(level)[0], level[0]) && Build(level)[0].dependencies == Build(level[0].dependencies)
    ensures ItemLabel(Build(level)[0]) == NodeLabel(level[0])
  {
    BuildAt(level, 0);
  }

  lemma {:induction false} ChildrenOfBuild(nodes: seq<Node>, kept: bool)
    ensures MarkedChildren(Build(nodes), kept) == NodeChildren(nodes, kept)
  {
    if nodes != [] {
      BuildCons(nodes);
      ChildrenOfBuild(nodes[1..], kept);
    }
  }

  lemma {:induction false} LevelsOfBuild(level: seq<Node>)
    ensures TwoLevels(Build(level)) == NodeLevels(level)
  {
    if level != [] {
      BuildCons(level);
      ChildrenOfBuild(level[0].dependencies, !IsDev(level[0]));
      LevelsOfBuild(level[1..]);
    }
  }

  /** The labels of the first two levels that are not marked dev themselves. */
  function PlainLabels(level: seq<Node>): set<string> {
    PlainOnes(level) + set n, x | n in level && x in PlainOnes(n.dependencies) :: x
  }

  function PlainOnes(nodes: seq<Node>): set<string> {
    set t | t in nodes && !IsDev(t) :: NodeLabel(t)
  }

  /** Every child has the dev mark of its parent. */
  predicate MarksInherited(level: seq<Node>) {
    forall n | n in level :: forall t | t in n.dependencies :: IsDev(t) == IsDev(n)
  }

  lemma PlainOnesCons(n: Node, rest: seq<Node>)
    ensures PlainOnes([n] + rest) == (if IsDev(n) then {} else {NodeLabel(n)}) + PlainOnes(rest)
  {
    assert ([n] + rest)[0] == n;
  }

  lemma PlainLabelsCons(n: Node, rest: seq<Node>)
    ensures PlainLabels([n] + rest) ==
            (if IsDev(n) then {} else {NodeLabel(n)}) + PlainOnes(n.dependencies) + PlainLabels(rest)
  {
    PlainOnesCons(n, rest);
    assert ([n] + rest)[0] == n;
  }

  lemma {:induction false} PlainChildren(nodes: seq<Node>, kept: bool)
    ensures Plain(NodeChildren(nodes, kept)) == PlainOnes(nodes)
  {
    if nodes != [] {
      var (t, rest) := (nodes[0], nodes[1..]);
      var mark := Marked(NodeLabel(t), kept, !IsDev(t));
      PlainChildren(rest, kept);
      KeptConcat([mark], NodeChildren(rest, kept));
      KeptSingle(mark);
      PlainOnesCons(t, rest);
      assert nodes == [t] + rest;
    }
  }

  lemma {:induction false} PlainLevels(level: seq<Node>)
    ensures Plain(NodeLevels(level)) == PlainLabels(level)
  {
    if level != [] {
      var (n, rest) := (level[0], level[1..]);
      var mark := Marked(NodeLabel(n), !IsDev(n), !IsDev(n));
      PlainLevels(rest);
      PlainChildren(n.dependencies, !IsDev(n));
      KeptConcat([mark] + NodeChildren(n.dependencies, !IsDev(n)), NodeLevels(rest));
      KeptConcat([mark], NodeChildren(n.dependencies, !IsDev(n)));
      KeptSingle(mark);
      PlainLabelsCons(n, rest);
      assert level == [n] + rest;
    }
  }

  lemma {:induction false} ChildrenAgree(nodes: seq<Node>, kept: bool)
    ensures (forall m | m in NodeChildren(nodes, kept) :: m.kept == m.plain) <==> forall t | t in nodes :: IsDev(t) == !kept
  {
    if nodes != [] {
      ChildrenAgree(nodes[1..], kept);
      assert nodes == [nodes[0]] + nodes[1..];
      var (first, rest) := (Marked(NodeLabel(nodes[0]), kept, !IsDev(nodes[0])), NodeChildren(nodes[1..], kept));
      assert forall m :: m in [first] + rest <==> m == first || m in rest;
    }
  }

  lemma {:induction false} MarksAgree(level: seq<Node>)
    ensures (forall m | m in NodeLevels(level) :: m.kept == m.plain) <==> MarksInherited(level)
  {
    if level != [] {
      ChildrenAgree(level[0].dependencies, !IsDev(level[0]));
      MarksAgree(level[1..]);
      assert level == [level[0]] + level[1..];
    }
  }

  lemma DistinctDecides(all: seq<Marked>)
    requires DistinctLabels(all)
    ensures forall m | m in all :: (m.text in Kept(all) <==> m.kept) && (m.text in Plain(all) <==> m.plain)
  {
  }

  /** The collected labels are those of the first two levels whose own mark is not dev when every child has
      its parent's mark; for distinct labels, only then. */
  lemma DevExact(level: seq<Node>)
    ensures var npm := Members(NpmLabels(Build(level)));
            && (MarksInherited(level) ==> npm == PlainLabels(level))
            && (DistinctLabels(NodeLevels(level)) ==> (npm == PlainLabels(level) <==> MarksInherited(level)))
  {
    LevelsMarked(Build(level));
    LevelsOfBuild(level);
    PlainLevels(level);
    MarksAgree(level);
    if DistinctLabels(NodeLevels(level)) {
      DistinctDecides(NodeLevels(level));
    }
  }

  lemma {:induction false} ChildListed(nodes: seq<Node>, kept: bool, t: Node)
    requires t in nodes
    ensures Marked(NodeLabel(t), kept, !IsDev(t)) in NodeChildren(nodes, kept)
  {
    if nodes[0] != t {
      ChildListed(nodes[1..], kept, t);
    }
  }

  lemma {:induction false} LevelListed(level: seq<Node>, n: Node, t: Node)
    requires n in level && t in n.dependencies
    ensures Marked(NodeLabel(t), !IsDev(n), !IsDev(t)) in NodeLevels(level)
  {
    if level[0] == n {
      ChildListed(n.dependencies, !IsDev(n), t);
    } else {
      LevelListed(level[1..], n, t);
    }
  }

  /** A child is collected by its parent's mark, whatever its own: a dev child of a plain parent is in, a
      plain child of a dev parent is out. */
  lemma ParentDecides(level: seq<Node>, n: Node, t: Node)
    requires DistinctLabels(NodeLevels(level)) && n in level && t in n.dependencies
    ensures NodeLabel(t) in Members(NpmLabels(Build(level))) <==> !IsDev(n)
    ensures NodeLabel(t) in PlainLabels(level) <==> !IsDev(t)
  {
    LevelsMarked(Build(level));
    LevelsOfBuild(level);
    PlainLevels(level);
    LevelListed(level, n, t);
    DistinctDecides(NodeLevels(level));
  }
}
