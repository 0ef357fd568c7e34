// Choosing a manifest among several (f8a_worker/workers/mercator.py).
module Manifests {
  import opened Common
  import opened Text
  import opened Sorting

  datatype Item = Item(id: int, ecosystem: string, path: string)

  datatype Kind = MetadataJson | PkgInfo | RequirementsTxt

  predicate EndsWith(s: string, end: string) {
    |end| <= |s| && s[|s| - |end|..] == end
  }

  function StripSlashes(path: string): string {
    if path != "" && path[|path| - 1] == '/' then StripSlashes(path[..|path| - 1]) else path
  }

  /** get_depth. */
  function Depth(path: string): nat {
    Count(StripSlashes(path), '/')
  }

  predicate InEgg(i: Item) {
    EndsWith(i.path, ".egg-info/PKG-INFO")
  }

  predicate IsKind(i: Item, k: Kind) {
    match k
    case MetadataJson => i.ecosystem == "Python-Dist" && EndsWith(i.path, ".json")
    case PkgInfo => i.ecosystem == "Python-Dist" && !EndsWith(i.path, ".json")
    case RequirementsTxt => i.ecosystem == "Python-RequirementsTXT"
  }

  /** What is minimised: the depth, and for PKG-INFO first whether it lies outside .egg-info. */
  predicate Precedes(k: Kind, a: Item, b: Item) {
    if k == PkgInfo && InEgg(a) != InEgg(b) then InEgg(a) else Depth(a.path) < Depth(b.path)
  }

  /** `candidate` is the first minimum of the elements with `p` under `less`. */
  ghost predicate FirstMin<T>(s: seq<T>, p: T -> bool, less: (T, T) -> bool, candidate: Option<T>) {
    match candidate
    case None => forall i | i in s :: !p(i)
    case Some(c) =>
      exists n :: 0 <= n < |s| && s[n] == c && p(c)
        && (forall q | 0 <= q < |s| && p(s[q]) :: !less(s[q], c))
        && (forall q | 0 <= q < n && p(s[q]) :: less(c, s[q]))
  }

  /** Neither of two elements precedes the other exactly when they tie; ties are transitive. */
  ghost predicate StrictWeak<T(!new)>(less: (T, T) -> bool) {
    && (forall a, b :: less(a, b) ==> !less(b, a))
    && (forall a, b, c :: !less(a, b) && !less(b, c) ==> !less(a, c))
  }

  lemma FirstMinStep<T(!new)>(s: seq<T>, x: T, p: T -> bool, less: (T, T) -> bool, candidate: Option<T>)
    requires FirstMin(s, p, less, candidate) && StrictWeak(less)
    ensures FirstMin(s + [x], p, less, if p(x) && (candidate.None? || less(x, candidate.value)) then Some(x) else candidate)
  {
    var all := s + [x];
    assert all[|s|] == x && forall q | 0 <= q < |s| :: all[q] == s[q];
    match candidate
    case None =>
      if p(x) {
        forall q | 0 <= q < |s| ensures !p(all[q]) {
          assert s[q] in s;
        }
      }
    case Some(c) =>
      var n :| 0 <= n < |s| && s[n] == c && p(c)
        && (forall q | 0 <= q < |s| && p(s[q]) :: !less(s[q], c))
        && (forall q | 0 <= q < n && p(s[q]) :: less(c, s[q]));
      if p(x) && less(x, c) {
        forall q | 0 <= q < |s| && p(all[q]) ensures less(x, all[q]) && !less(all[q], x) {
          assert !less(s[q], c);
        }
      } else {
        assert all[n] == c;
      }
  }

  /** Listing a minimal element first makes it the candidate. */
  lemma FirstMinForward<T(!new)>(s: seq<T>, c: T, p: T -> bool, less: (T, T) -> bool) returns (listing: seq<T>)
    requires c in s && p(c) && forall i | i in s && p(i) :: !less(i, c)
    ensures multiset(listing) == multiset(s) && FirstMin(listing, p, less, Some(c))
  {
    var n :| 0 <= n < |s| && s[n] == c;
    var (front, back) := (s[..n], s[n + 1..]);
    listing := [c] + (front + back);
    assert s == front + ([c] + back);
    assert multiset(s) == multiset(front) + (multiset{c} + multiset(back));
    assert listing[0] == c;
    forall q | 0 <= q < |listing| && p(listing[q]) ensures !less(listing[q], c) {
      assert listing[q] in s;
    }
  }

  /** The candidate of a kind is its first minimum. */
  ghost predicate FirstMinimum(items: seq<Item>, k: Kind, candidate: Option<Item>) {
    FirstMin(items, KindTest(k), Order(k), candidate)
  }

  function KindTest(k: Kind): Item -> bool {
    (i: Item) => IsKind(i, k)
  }

  function Order(k: Kind): (Item, Item) -> bool {
    (a: Item, b: Item) => Precedes(k, a, b)
  }

  // Where the requirements of a source distribution come from.
  datatype Requires = RequiresTxt | FromRequirements(item: Item) | NoRequires

  datatype Choice = Nothing | UseMetadata(item: Item) | UsePkgInfo(item: Item, source: Requires) | UseRequirements(item: Item)

  /** The decision after the loop; `hasRequires` tells whether a requires.txt lies next to a PKG-INFO. */
  function Decide(topdir: string, metadata: Option<Item>, pkgInfo: Option<Item>, requirements: Option<Item>,
                  hasRequires: Item -> bool): Choice {
    if metadata.Some? && Depth(metadata.value.path) == Depth(topdir) + 2 then UseMetadata(metadata.value)
    else if pkgInfo.Some? && Depth(pkgInfo.value.path) <= Depth(topdir) + 5 then
      UsePkgInfo(pkgInfo.value,
                 if hasRequires(pkgInfo.value) then RequiresTxt
                 else if requirements.Some? then FromRequirements(requirements.value)
                 else NoRequires)
    else if requirements.Some? then UseRequirements(requirements.value)
    else Nothing
  }

  ghost predicate FirstMinima(items: seq<Item>, m: Option<Item>, p: Option<Item>, r: Option<Item>) {
    FirstMinimum(items, MetadataJson, m) && FirstMinimum(items, PkgInfo, p) && FirstMinimum(items, RequirementsTxt, r)
  }

  /** A wheel keeps its metadata two levels below the top; a source distribution its PKG-INFO at most five. */
  ghost predicate ChosenFrom(choice: Choice, topdir: string, m: Option<Item>, p: Option<Item>, r: Option<Item>,
                             hasRequires: Item -> bool)
  {
    var wheel := m.Some? && Depth(m.value.path) == Depth(topdir) + 2;
    var source := !wheel && p.Some? && Depth(p.value.path) <= Depth(topdir) + 5;
    match choice
    case UseMetadata(i) => wheel && m == Some(i)
    case UsePkgInfo(i, RequiresTxt) => source && p == Some(i) && hasRequires(i)
    case UsePkgInfo(i, FromRequirements(j)) => source && p == Some(i) && !hasRequires(i) && r == Some(j)
    case UsePkgInfo(i, NoRequires) => source && p == Some(i) && !hasRequires(i) && r == None
    case UseRequirements(i) => !wheel && !source && r == Some(i)
    case Nothing => !wheel && !source && r == None
  }

  lemma DecideChooses(topdir: string, m: Option<Item>, p: Option<Item>, r: Option<Item>, hasRequires: Item -> bool, choice: Choice)
    ensures choice == Decide(topdir, m, p, r, hasRequires) <==> ChosenFrom(choice, topdir, m, p, r, hasRequires)
  {
  }

  /** There is exactly one choice: the one that follows from the three first minima. */
  method MergePythonItems(topdir: string, items: seq<Item>, hasRequires: Item -> bool) returns (choice: Choice)
    ensures exists m, p, r :: FirstMinima(items, m, p, r) && ChosenFrom(choice, topdir, m, p, r, hasRequires)
    ensures forall m, p, r | FirstMinima(items, m, p, r) :: ChosenFrom(choice, topdir, m, p, r, hasRequires)
  {
    var metadata, pkgInfo, requirements := None, None, None;
    for k := 0 to |items|
      invariant FirstMinimum(items[..k], MetadataJson, metadata)
      invariant FirstMinimum(items[..k], PkgInfo, pkgInfo)
      invariant FirstMinimum(items[..k], RequirementsTxt, requirements)
    {
      var item := items[k];
      TakeNext(items, k);
      CandidateStep(items[..k], item, MetadataJson, metadata);
      CandidateStep(items[..k], item, PkgInfo, pkgInfo);
      CandidateStep(items[..k], item, RequirementsTxt, requirements);
      if item.ecosystem == "Python-Dist" && EndsWith(item.path, ".json") {
        if metadata.None? || Depth(metadata.value.path) > Depth(item.path) {
          metadata := Some(item);
        }
      } else if item.ecosystem == "Python-Dist" {
        if pkgInfo.None? {
          pkgInfo := Some(item);
        } else {
          var deeper := Depth(pkgInfo.value.path) > Depth(item.path);
          if InEgg(pkgInfo.value) && InEgg(item) && deeper {
            pkgInfo := Some(item);
          } else if InEgg(item) && !InEgg(pkgInfo.value) {
            pkgInfo := Some(item);
          } else if !(InEgg(item) || InEgg(pkgInfo.value)) && deeper {
            pkgInfo := Some(item);
          }
        }
      } else if item.ecosystem == "Python-RequirementsTXT" {
        if requirements.None? || Depth(requirements.value.path) > Depth(item.path) {
          requirements := Some(item);
        }
      }
    }
    assert items[..|items|] == items;
    choice := Decide(topdir, metadata, pkgInfo, requirements, hasRequires);
    DecideChooses(topdir, metadata, pkgInfo, requirements, hasRequires, choice);
    forall m, p, r | FirstMinima(items, m, p, r) ensures ChosenFrom(choice, topdir, m, p, r, hasRequires) {
      FirstMinimumUnique(items, MetadataJson, m, metadata);
      FirstMinimumUnique(items, PkgInfo, p, pkgInfo);
      FirstMinimumUnique(items, RequirementsTxt, r, requirements);
    }
  }

  lemma CandidateStep(items: seq<Item>, item: Item, k: Kind, candidate: Option<Item>)
    requires FirstMinimum(items, k, candidate)
    ensures FirstMinimum(items + [item], k,
              if IsKind(item, k) && (candidate.None? || Precedes(k, item, candidate.value)) then Some(item) else candidate)
  {
    FirstMinStep(items, item, KindTest(k), Order(k), candidate);
  }

  // ----- what is preferred -----

  /** A file is one deeper than its directory, and slashes at the end do not count. */
  lemma DepthMeaning(dir: string, name: string)
    requires name != "" && FreeOf(name, {'/'})
    ensures dir != "" && dir[|dir| - 1] != '/' ==> Depth(dir + "/" + name) == Depth(dir) + 1
    ensures Depth(name) == 0 && Depth(dir + "/") == Depth(dir)
  {
    CountFree(name);
    assert (dir + "/")[..|dir|] == dir;
    if dir != "" && dir[|dir| - 1] != '/' {
      var path := dir + "/" + name;
      assert path[|path| - 1] == name[|name| - 1];
      CountConcat(dir + "/", name);
      CountConcat(dir, "/");
      assert Count("/", '/') == 1 + Count("", '/');
    }
  }

  lemma {:induction false} CountFree(s: string)
    requires FreeOf(s, {'/'})
    ensures Count(s, '/') == 0
  {
    if s != "" {
      CountFree(s[1..]);
    }
  }

  lemma {:induction false} CountConcat(a: string, b: string)
    ensures Count(a + b, '/') == Count(a, '/') + Count(b, '/')
  {
    if a == "" {
      assert a + b == b;
    } else {
      assert (a + b)[1..] == a[1..] + b;
      CountConcat(a[1..], b);
    }
  }

  /** The metadata.json and the requirements.txt are the shallowest; a PKG-INFO in .egg-info goes before
      any other one, and among those of its sort it is the shallowest. */
  lemma CandidateMeaning(items: seq<Item>, c: Item)
    ensures FirstMinimum(items, MetadataJson, Some(c)) ==>
              && c in items && c.ecosystem == "Python-Dist" && EndsWith(c.path, ".json")
              && forall i | i in items && i.ecosystem == "Python-Dist" && EndsWith(i.path, ".json") :: Depth(c.path) <= Depth(i.path)
    ensures FirstMinimum(items, RequirementsTxt, Some(c)) ==>
              && c in items && c.ecosystem == "Python-RequirementsTXT"
              && forall i | i in items && i.ecosystem == "Python-RequirementsTXT" :: Depth(c.path) <= Depth(i.path)
    ensures FirstMinimum(items, PkgInfo, Some(c)) ==>
              var egg := EndsWith(c.path, ".egg-info/PKG-INFO");
              && c in items && c.ecosystem == "Python-Dist" && !EndsWith(c.path, ".json")
              && forall i | i in items && i.ecosystem == "Python-Dist" && !EndsWith(i.path, ".json") ::
                   if EndsWith(i.path, ".egg-info/PKG-INFO") then egg && Depth(c.path) <= Depth(i.path)
                   else egg || Depth(c.path) <= Depth(i.path)
  {
    CandidateMinimal(items, MetadataJson, Some(c));
    CandidateMinimal(items, RequirementsTxt, Some(c));
    CandidateMinimal(items, PkgInfo, Some(c));
  }

  // ----- the order of the listing -----

  /** `c` is of the kind, and nothing of the kind precedes it. */
  ghost predicate Minimal(items: seq<Item>, k: Kind, c: Item) {
    c in items && IsKind(c, k) && forall i | i in items && IsKind(i, k) :: !Precedes(k, i, c)
  }

  lemma CandidateMinimal(items: seq<Item>, k: Kind, candidate: Option<Item>)
    ensures FirstMinimum(items, k, candidate) && candidate.Some? ==> Minimal(items, k, candidate.value)
    ensures FirstMinimum(items, k, candidate) && candidate.None? ==> forall i | i in items :: !IsKind(i, k)
  {
  }

  lemma {:induction false} CandidateExists(items: seq<Item>, k: Kind) returns (c: Option<Item>)
    ensures FirstMinimum(items, k, c)
  {
    if items == [] {
      c := None;
    } else {
      var n := |items| - 1;
      c := CandidateExists(items[..n], k);
      CandidateStep(items[..n], items[n], k, c);
      assert items == items[..n] + [items[n]];
      c := if IsKind(items[n], k) && (c.None? || Precedes(k, items[n], c.value)) then Some(items[n]) else c;
    }
  }

  lemma FirstMinimumUnique(items: seq<Item>, k: Kind, c: Option<Item>, d: Option<Item>)
    requires FirstMinimum(items, k, c) && FirstMinimum(items, k, d)
    ensures c == d
  {
  }

  /** The candidate of a kind is the same in every order of the listing exactly when no two different
      items of the kind share the minimum. */
  lemma OrderIndependent(items: seq<Item>, k: Kind)
    ensures (forall listing, c, d | multiset(listing) == multiset(items)
               && FirstMinimum(items, k, c) && FirstMinimum(listing, k, d) :: c == d)
            <==> forall a, b | Minimal(items, k, a) && Minimal(items, k, b) :: a == b
  {
    if forall a, b | Minimal(items, k, a) && Minimal(items, k, b) :: a == b {
      forall listing, c, d | multiset(listing) == multiset(items) && FirstMinimum(items, k, c) && FirstMinimum(listing, k, d)
        ensures c == d
      {
        SameMembers(items, listing);
        CandidateMinimal(items, k, c);
        CandidateMinimal(listing, k, d);
        if d.Some? {
          assert Minimal(items, k, d.value);
        }
      }
    } else {
      var a, b :| Minimal(items, k, a) && Minimal(items, k, b) && a != b;
      var c := CandidateExists(items, k);
      var other := if c == Some(a) then b else a;
      var listing := FirstMinForward(items, other, KindTest(k), Order(k));
      assert FirstMinimum(listing, k, Some(other));
    }
  }

  /** With an unshared minimum in each kind, the chosen manifest does not depend on the order either. */
  lemma ChoiceIndependent(topdir: string, items: seq<Item>, listing: seq<Item>, hasRequires: Item -> bool,
                          m: Option<Item>, p: Option<Item>, r: Option<Item>, m': Option<Item>, p': Option<Item>, r': Option<Item>)
    requires multiset(listing) == multiset(items)
    requires forall k, a, b | Minimal(items, k, a) && Minimal(items, k, b) :: a == b
    requires FirstMinima(items, m, p, r) && FirstMinima(listing, m', p', r')
    ensures Decide(topdir, m, p, r, hasRequires) == Decide(topdir, m', p', r', hasRequires)
  {
    OrderIndependent(items, MetadataJson);
    OrderIndependent(items, PkgInfo);
    OrderIndependent(items, RequirementsTxt);
  }

  // ----- get_outermost_items -----

  function Parts(i: Item): nat {
    |SplitOn(i.path, "/")|
  }

  predicate NotDeeper(a: Item, b: Item) {
    Parts(a) <= Parts(b)
  }

  function OutermostItems(items: seq<Item>): seq<Item> {
    var sorted := Sort(items, NotDeeper);
    if sorted == [] then [] else Filter(sorted, (i: Item) => Parts(i) == Parts(sorted[0]))
  }

  /** Exactly the items of the smallest depth, in their original order. */
  lemma OutermostExact(items: seq<Item>)
    requires items != []
    ensures exists least :: least in items && (forall i | i in items :: Parts(least) <= Parts(i))
              && OutermostItems(items) == Filter(items, (i: Item) => Parts(i) == Parts(least))
  {
    SortEnds(items, NotDeeper);
    var least := Sort(items, NotDeeper)[0];
    forall i | i in items ensures Parts(least) <= Parts(i) {
      assert NotDeeper(least, i);
    }
    SortStable(items, NotDeeper, (i: Item) => Parts(i) == Parts(least));
  }
}
