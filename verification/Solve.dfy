// Solver.solve (f8a_worker/solver.py): filter the fetched releases of each
// dependency, sort them, and keep all of them, the highest or the lowest.
module Solve {
  import opened Common
  import opened Sorting
  import opened Versions
  import opened Dependencies

  datatype Answer = All(versions: seq<string>) | Picked(version: Option<string>)

  /** The name a fetcher answers with, and the releases it lists. */
  type Fetcher = string -> (string, seq<string>)

  function Accepted(releases: seq<string>, d: Dependency): seq<string> {
    Filter(releases, (r: string) => Check(r, d))
  }

  function Matching(releases: seq<string>, d: Dependency): seq<string> {
    Sort(Accepted(releases, d), AtMost)
  }

  function NameOf(fetch: Fetcher, d: Dependency): string {
    fetch(d.name).0
  }

  function ReleasesOf(fetch: Fetcher, d: Dependency): seq<string> {
    fetch(d.name).1
  }

  function FetchedNames(deps: seq<Dependency>, fetch: Fetcher): (r: seq<string>)
    ensures |r| == |deps| && forall i | 0 <= i < |r| :: r[i] == NameOf(fetch, deps[i])
  {
    seq(|deps|, i requires 0 <= i < |deps| => NameOf(fetch, deps[i]))
  }

  ghost predicate NoRepeats(names: seq<string>) {
    forall i, j | 0 <= i < j < |names| :: names[i] != names[j]
  }

  /** No two dependencies are fetched under one name, and without `graceful` each has releases. */
  ghost predicate Solvable(deps: seq<Dependency>, fetch: Fetcher, graceful: bool) {
    NoRepeats(FetchedNames(deps, fetch)) && (graceful || forall d | d in deps :: ReleasesOf(fetch, d) != [])
  }

  // ----- what an answer means -----

  /** `v` is an accepted release that none exceeds; of several that tie, the one fetched last. */
  ghost predicate Highest(releases: seq<string>, d: Dependency, v: string) {
    exists k :: 0 <= k < |releases| && releases[k] == v && Check(v, d) &&
      forall j | 0 <= j < |releases| && Check(releases[j], d) ::
        Compare(releases[j], v) < 0 || (Compare(releases[j], v) == 0 && j <= k)
  }

  /** `v` is an accepted release that none undercuts; of several that tie, the one fetched first. */
  ghost predicate Lowest(releases: seq<string>, d: Dependency, v: string) {
    exists k :: 0 <= k < |releases| && releases[k] == v && Check(v, d) &&
      forall j | 0 <= j < |releases| && Check(releases[j], d) ::
        Compare(releases[j], v) > 0 || (Compare(releases[j], v) == 0 && k <= j)
  }

  function SameAs(group: string): string -> bool {
    (r: string) => Compare(r, group) == 0
  }

  function AcceptedLike(d: Dependency, group: string): string -> bool {
    (r: string) => Check(r, d) && Compare(r, group) == 0
  }

  /** Ascending, each accepted release as often as it was fetched and nothing else, ties in fetched order. */
  ghost predicate AllAccepted(releases: seq<string>, d: Dependency, versions: seq<string>) {
    && (forall i, j | 0 <= i < j < |versions| :: Compare(versions[i], versions[j]) <= 0)
    && (forall v :: multiset(versions)[v] == if Check(v, d) then multiset(releases)[v] else 0)
    && (forall group :: Filter(versions, SameAs(group)) == Filter(releases, AcceptedLike(d, group)))
  }

  ghost predicate Means(answer: Answer, releases: seq<string>, d: Dependency, allVersions: bool, highest: bool) {
    match answer
    case All(versions) => allVersions && AllAccepted(releases, d, versions)
    case Picked(None) => !allVersions && forall r | r in releases :: !Check(r, d)
    case Picked(Some(v)) => !allVersions && if highest then Highest(releases, d, v) else Lowest(releases, d, v)
  }

  /** The full answer: sorted and filtered, nothing else. */
  lemma MatchingExact(releases: seq<string>, d: Dependency)
    ensures AllAccepted(releases, d, Matching(releases, d))
  {
    AtMostIsTotalPreorder();
    var accepted := Accepted(releases, d);
    SortSorts(accepted, AtMost);
    FilterMembers(releases, (r: string) => Check(r, d));
    var m := Matching(releases, d);
    forall i, j | 0 <= i < j < |m| ensures Compare(m[i], m[j]) <= 0 {
      assert AtMost(m[i], m[j]);
    }
    forall group ensures Filter(m, SameAs(group)) == Filter(releases, AcceptedLike(d, group)) {
      MatchingStable(releases, d, group);
    }
  }

  lemma TiesAreAlike(group: string, x: string, y: string)
    requires SameAs(group)(x) && SameAs(group)(y)
    ensures AtMost(x, y)
  {
    CompareTotalPreorder(x, group, y);
    CompareTotalPreorder(group, y, group);
  }

  lemma MatchingStable(releases: seq<string>, d: Dependency, group: string)
    ensures Filter(Matching(releases, d), SameAs(group)) == Filter(releases, AcceptedLike(d, group))
  {
    AtMostIsTotalPreorder();
    forall x, y | SameAs(group)(x) && SameAs(group)(y) ensures AtMost(x, y) {
      TiesAreAlike(group, x, y);
    }
    SortStable(Accepted(releases, d), AtMost, SameAs(group));
    FilterTwice(releases, (r: string) => Check(r, d), SameAs(group), AcceptedLike(d, group));
  }

  lemma AcceptedMembers(releases: seq<string>, d: Dependency, versions: seq<string>)
    requires AllAccepted(releases, d, versions)
    ensures forall v :: v in versions <==> v in releases && Check(v, d)
  {
    forall v ensures v in versions <==> v in releases && Check(v, d) {
      assert v in versions <==> multiset(versions)[v] > 0;
      assert v in releases <==> multiset(releases)[v] > 0;
    }
  }

  /** The ends of the full answer bound every accepted release. */
  lemma EndsBound(releases: seq<string>, d: Dependency, versions: seq<string>, r: string)
    requires AllAccepted(releases, d, versions) && r in releases && Check(r, d)
    ensures versions != [] && Compare(r, versions[|versions| - 1]) <= 0 && Compare(versions[0], r) <= 0
  {
    AcceptedMembers(releases, d, versions);
    var i :| 0 <= i < |versions| && versions[i] == r;
    CompareTotalPreorder(r, r, r);
  }

  /** The accepted releases that tie with `v` are listed as they were fetched. */
  lemma TiesListed(releases: seq<string>, d: Dependency, versions: seq<string>, v: string)
    requires AllAccepted(releases, d, versions) && v in versions
    ensures Filter(releases, AcceptedLike(d, v)) == Filter(versions, SameAs(v)) && SameAs(v)(v)
  {
    CompareTotalPreorder(v, v, v);
  }

  lemma LastIsHighest(releases: seq<string>, d: Dependency, versions: seq<string>)
    requires AllAccepted(releases, d, versions) && versions != []
    ensures Highest(releases, d, versions[|versions| - 1])
  {
    var v := versions[|versions| - 1];
    TiesListed(releases, d, versions, v);
    FilterKeepsEnds(versions, SameAs(v));
    var last := FilterLast(releases, AcceptedLike(d, v));
    forall j | 0 <= j < |releases| && Check(releases[j], d)
      ensures Compare(releases[j], v) < 0 || (Compare(releases[j], v) == 0 && j <= last)
    {
      EndsBound(releases, d, versions, releases[j]);
      assert j > last ==> !AcceptedLike(d, v)(releases[j]);
    }
  }

  lemma FirstIsLowest(releases: seq<string>, d: Dependency, versions: seq<string>)
    requires AllAccepted(releases, d, versions) && versions != []
    ensures Lowest(releases, d, versions[0])
  {
    var v := versions[0];
    TiesListed(releases, d, versions, v);
    FilterKeepsEnds(versions, SameAs(v));
    var first := FilterFirst(releases, AcceptedLike(d, v));
    forall j | 0 <= j < |releases| && Check(releases[j], d)
      ensures Compare(releases[j], v) > 0 || (Compare(releases[j], v) == 0 && first <= j)
    {
      EndsBound(releases, d, versions, releases[j]);
      CompareTotalPreorder(v, releases[j], v);
      assert j < first ==> !AcceptedLike(d, v)(releases[j]);
    }
  }

  method Choose(releases: seq<string>, d: Dependency, allVersions: bool, highest: bool) returns (answer: Answer)
    ensures Means(answer, releases, d, allVersions, highest)
  {
    var matching := Matching(releases, d);
    MatchingExact(releases, d);
    AcceptedMembers(releases, d, matching);
    if allVersions {
      answer := All(matching);
    } else if matching == [] {
      assert forall r :: r !in matching;
      answer := Picked(None);
    } else if highest {
      LastIsHighest(releases, d, matching);
      answer := Picked(Some(matching[|matching| - 1]));
    } else {
      FirstIsLowest(releases, d, matching);
      answer := Picked(Some(matching[0]));
    }
  }

  /** Exactly the given dependencies are solved: one key for each, under the name it is fetched by. */
  ghost predicate Solved(solved: map<string, Answer>, deps: seq<Dependency>, fetch: Fetcher, graceful: bool,
                         allVersions: bool, highest: bool)
  {
    && Solvable(deps, fetch, graceful) && |solved| == |deps|
    && forall i | 0 <= i < |deps| ::
         NameOf(fetch, deps[i]) in solved &&
         Means(solved[NameOf(fetch, deps[i])], ReleasesOf(fetch, deps[i]), deps[i], allVersions, highest)
  }

  /** With as many keys as dependencies and no repeated name, there is no other key. */
  lemma OnlyTheirKeys(solved: map<string, Answer>, names: seq<string>)
    requires NoRepeats(names) && |solved| == |names| && forall i | 0 <= i < |names| :: names[i] in solved
    ensures forall n | n in solved :: n in names
  {
    DistinctNames(names);
    var all := set n | n in names;
    assert all <= solved.Keys;
    assert |solved.Keys - all| == 0;
    forall n | n in solved ensures n in names {
      assert n in all || n in solved.Keys - all;
    }
  }

  lemma {:induction false} DistinctNames(names: seq<string>)
    requires NoRepeats(names)
    ensures |set n | n in names| == |names|
  {
    if names != [] {
      var rest := set n | n in names[1..];
      DistinctNames(names[1..]);
      assert (set n | n in names) == {names[0]} + rest;
    }
  }

  lemma SolvedStep(solved: map<string, Answer>, deps: seq<Dependency>, d: Dependency, fetch: Fetcher, graceful: bool,
                   allVersions: bool, highest: bool, answer: Answer)
    requires Solved(solved, deps, fetch, graceful, allVersions, highest)
    requires Means(answer, ReleasesOf(fetch, d), d, allVersions, highest)
    requires NameOf(fetch, d) !in solved && (graceful || ReleasesOf(fetch, d) != [])
    ensures Solved(solved[NameOf(fetch, d) := answer], deps + [d], fetch, graceful, allVersions, highest)
  {
    var name := NameOf(fetch, d);
    CountKeys(solved, name, answer);
    SolvableStep(solved, deps, d, fetch, graceful);
  }

  lemma CountKeys(m: map<string, Answer>, name: string, answer: Answer)
    requires name !in m
    ensures |m[name := answer]| == |m| + 1
  {
    var m' := m[name := answer];
    assert m'.Keys == m.Keys + {name} && |m'.Keys| == |m.Keys| + 1;
  }

  lemma SolvableStep(solved: map<string, Answer>, deps: seq<Dependency>, d: Dependency, fetch: Fetcher, graceful: bool)
    requires Solvable(deps, fetch, graceful) && forall i | 0 <= i < |deps| :: NameOf(fetch, deps[i]) in solved
    requires NameOf(fetch, d) !in solved && (graceful || ReleasesOf(fetch, d) != [])
    ensures Solvable(deps + [d], fetch, graceful)
  {
    var (names, all) := (FetchedNames(deps, fetch), FetchedNames(deps + [d], fetch));
    assert all == names + [NameOf(fetch, d)];
    forall i | 0 <= i < |names| ensures names[i] != NameOf(fetch, d) {
      assert names[i] == NameOf(fetch, deps[i]);
    }
  }

  /** A prefix of a solvable list is solvable, and the next dependency has a new name. */
  lemma Unsolvable(solved: map<string, Answer>, deps: seq<Dependency>, k: nat, fetch: Fetcher, graceful: bool,
                   allVersions: bool, highest: bool)
    requires k < |deps| && Solved(solved, deps[..k], fetch, graceful, allVersions, highest)
    requires NameOf(fetch, deps[k]) in solved || (!graceful && ReleasesOf(fetch, deps[k]) == [])
    ensures !Solvable(deps, fetch, graceful)
  {
    var names := FetchedNames(deps, fetch);
    if NameOf(fetch, deps[k]) in solved {
      var before := FetchedNames(deps[..k], fetch);
      OnlyTheirKeys(solved, before);
      var i :| 0 <= i < k && before[i] == names[k];
      assert names[i] == NameOf(fetch, deps[i]) == before[i];
    } else {
      assert deps[k] in deps;
    }
  }

  /** Every parsed dependency gets its own key, or the run raises. */
  method SolveAll(deps: seq<Dependency>, fetch: Fetcher, graceful: bool, allVersions: bool, highest: bool)
    returns (r: Result<map<string, Answer>>)
    ensures r.Ok? <==> Solvable(deps, fetch, graceful)
    ensures r.Err? ==> r.error == SolverException
    ensures r.Ok? ==> Solved(r.value, deps, fetch, graceful, allVersions, highest)
  {
    var solved: map<string, Answer> := map[];
    for k := 0 to |deps|
      invariant Solved(solved, deps[..k], fetch, graceful, allVersions, highest)
    {
      var dep := deps[k];
      var name, releases := NameOf(fetch, dep), ReleasesOf(fetch, dep);
      if name in solved {
        Unsolvable(solved, deps, k, fetch, graceful, allVersions, highest);
        return Err(SolverException);
      }
      if releases == [] && !graceful {
        Unsolvable(solved, deps, k, fetch, graceful, allVersions, highest);
        return Err(SolverException);
      }
      var answer := Choose(releases, dep, allVersions, highest);
      SolvedStep(solved, deps[..k], dep, fetch, graceful, allVersions, highest, answer);
      TakeNext(deps, k);
      solved := solved[name := answer];
    }
    assert deps[..|deps|] == deps;
    r := Ok(solved);
  }

  // ----- what follows -----

  /** The picked version is an accepted release that no other accepted release exceeds (or, for the
      lowest, undercuts); nothing is picked exactly when nothing is accepted. */
  lemma PickExact(answer: Answer, releases: seq<string>, d: Dependency, highest: bool)
    requires Means(answer, releases, d, false, highest)
    ensures answer.Picked?
    ensures var p := answer.version;
            && (p.None? <==> forall r | r in releases :: !Check(r, d))
            && (p.Some? ==>
                  && p.value in releases && Check(p.value, d)
                  && forall r | r in releases && Check(r, d) ::
                       if highest then Compare(r, p.value) <= 0 else Compare(p.value, r) <= 0)
  {
    if answer.version.Some? {
      var v := answer.version.value;
      forall r | r in releases && Check(r, d) ensures if highest then Compare(r, v) <= 0 else Compare(v, r) <= 0 {
        var j :| 0 <= j < |releases| && releases[j] == r;
        CompareTotalPreorder(r, v, r);
      }
    }
  }

  /** Widening a spec never lowers the highest pick, never raises the lowest one, and never loses it. */
  lemma WideningMonotone(releases: seq<string>, narrow: Dependency, wide: Dependency, highest: bool, a: Answer, b: Answer)
    requires forall v :: Check(v, narrow) ==> Check(v, wide)
    requires Means(a, releases, narrow, false, highest) && Means(b, releases, wide, false, highest)
    ensures a.version.Some? ==>
              b.version.Some? &&
              if highest then Compare(a.version.value, b.version.value) <= 0 else Compare(b.version.value, a.version.value) <= 0
  {
    PickExact(a, releases, narrow, highest);
    PickExact(b, releases, wide, highest);
  }
}
