// The ecosystem solvers of f8a_worker/solver.py from the requirement text to
// the picked version.
module Solvers {
  import opened Common
  import opened Text
  import opened Versions
  import opened Dependencies
  import opened Solve
  import Npm
  import Nuget
  import Pypi

  /** `v` is a release that satisfies `wanted`, and no such release is better. */
  ghost predicate BestOf(releases: seq<string>, wanted: string -> bool, highest: bool, v: string) {
    && v in releases && wanted(v)
    && forall r | r in releases && wanted(r) :: if highest then Compare(r, v) <= 0 else Compare(v, r) <= 0
  }

  /** The answer under `name` is the best wanted release; it is missing exactly when no release is wanted. */
  ghost predicate AnswersBest(solved: map<string, Answer>, name: string, releases: seq<string>, wanted: string -> bool,
                              highest: bool)
  {
    && name in solved && solved[name].Picked?
    && (solved[name].version.None? <==> forall r | r in releases :: !wanted(r))
    && (solved[name].version.Some? ==> BestOf(releases, wanted, highest, solved[name].version.value))
  }

  /** What a solver answers for a dependency that means `wanted`, among whatever others. */
  lemma SolvedMeans(solved: map<string, Answer>, deps: seq<Dependency>, k: nat, fetch: Fetcher, graceful: bool,
                    highest: bool, wanted: string -> bool)
    requires Solved(solved, deps, fetch, graceful, false, highest) && k < |deps|
    requires forall v | v in ReleasesOf(fetch, deps[k]) :: Check(v, deps[k]) <==> wanted(v)
    ensures AnswersBest(solved, NameOf(fetch, deps[k]), ReleasesOf(fetch, deps[k]), wanted, highest)
  {
    PickExact(solved[NameOf(fetch, deps[k])], ReleasesOf(fetch, deps[k]), deps[k], highest);
  }

  /** NpmSolver answers with the highest release that satisfies some clause of the range text. */
  lemma NpmSolves(name: string, spec: string, ranger: string -> string, clauses: seq<Npm.Clause>,
                  solved: map<string, Answer>, deps: seq<Dependency>, k: nat, fetch: Fetcher, graceful: bool)
    requires clauses != [] && forall c | c in clauses :: Npm.ReadableClause(c)
    requires if spec == "latest" then clauses == [Npm.Star] else ranger(spec) == Npm.RangeText(clauses) != "null"
    requires k < |deps| && Npm.ReadRange(name, spec, ranger) == Ok(Some(deps[k]))
    requires Solved(solved, deps, fetch, graceful, false, true)
    ensures AnswersBest(solved, fetch(name).0, fetch(name).1,
                        (v: string) => exists c :: c in clauses && Npm.SatisfiesClause(v, c), true)
  {
    var wanted := (v: string) => exists c :: c in clauses && Npm.SatisfiesClause(v, c);
    forall v ensures deps[k].name == name && (Check(v, deps[k]) <==> wanted(v)) {
      Npm.RangeMeaning(name, spec, ranger, clauses, v);
    }
    SolvedMeans(solved, deps, k, fetch, graceful, true, wanted);
  }

  /** NugetSolver answers with the lowest release inside the interval. */
  lemma NugetSolves(name: string, i: Nuget.Interval, solved: map<string, Answer>, deps: seq<Dependency>, k: nat,
                    fetch: Fetcher, graceful: bool)
    requires Nuget.WellFormed(i) && Nuget.Recognised(i)
    requires k < |deps| && deps[k].name == name && Nuget.Cascade(Nuget.IntervalText(i)) == Nuget.Fresh(deps[k].spec)
    requires Solved(solved, deps, fetch, graceful, false, false)
    ensures AnswersBest(solved, fetch(name).0, fetch(name).1, (v: string) => Nuget.Inside(v, i), false)
  {
    forall v ensures Check(v, deps[k]) <==> Nuget.Inside(v, i) {
      Nuget.RecognisedMeaning(i, name, v);
      assert deps[k] == Dependency(name, deps[k].spec);
    }
    SolvedMeans(solved, deps, k, fetch, graceful, false, (v: string) => Nuget.Inside(v, i));
  }

  /** The requirements are fetched under different names, and without `graceful` each has releases. */
  ghost predicate Fetchable(rs: seq<Nuget.Requirement>, fetch: Fetcher, graceful: bool) {
    && (forall i, j | 0 <= i < j < |rs| :: fetch(rs[i].name).0 != fetch(rs[j].name).0)
    && (graceful || forall i | 0 <= i < |rs| :: fetch(rs[i].name).1 != [])
  }

  /** NugetSolver on a list of recognised requirements: it solves them exactly when they can be fetched, and
      then answers under each fetched name with the lowest release inside the interval. */
  lemma NugetSolvesAll(rs: seq<Nuget.Requirement>, fetch: Fetcher, graceful: bool, solved: map<string, Answer>)
    requires forall r | r in rs :: FreeOf(r.name, {' '}) && Nuget.WellFormed(r.interval) && Nuget.Recognised(r.interval)
    ensures var read := Nuget.ReadAll(Nuget.RequirementTexts(rs), None);
            && read.Ok? && |read.value| == |rs|
            && (Solvable(read.value, fetch, graceful) <==> Fetchable(rs, fetch, graceful))
            && (Solved(solved, read.value, fetch, graceful, false, false) ==>
                  |solved| == |rs| && forall k | 0 <= k < |rs| :: AnsweredLowest(rs[k], fetch, solved))
  {
    Nuget.ParseRecognised(rs, None, "");
    var ds := Nuget.ReadAll(Nuget.RequirementTexts(rs), None).value;
    SolvableFetchable(ds, rs, fetch, graceful);
    if Solved(solved, ds, fetch, graceful, false, false) {
      forall k | 0 <= k < |rs| ensures AnsweredLowest(rs[k], fetch, solved) {
        forall v ensures Check(v, ds[k]) <==> Nuget.Inside(v, rs[k].interval) {
          Nuget.ParseRecognised(rs, None, v);
        }
        SolvedMeans(solved, ds, k, fetch, graceful, false, (v: string) => Nuget.Inside(v, rs[k].interval));
      }
    }
  }

  ghost predicate AnsweredLowest(r: Nuget.Requirement, fetch: Fetcher, solved: map<string, Answer>) {
    AnswersBest(solved, fetch(r.name).0, fetch(r.name).1, (v: string) => Nuget.Inside(v, r.interval), false)
  }

  lemma SolvableFetchable(ds: seq<Dependency>, rs: seq<Nuget.Requirement>, fetch: Fetcher, graceful: bool)
    requires |ds| == |rs| && forall k | 0 <= k < |rs| :: ds[k].name == rs[k].name
    ensures Solvable(ds, fetch, graceful) <==> Fetchable(rs, fetch, graceful)
  {
    var names := FetchedNames(ds, fetch);
    assert forall i | 0 <= i < |rs| :: names[i] == fetch(rs[i].name).0;
    assert forall i | 0 <= i < |rs| :: ds[i] in ds && ReleasesOf(fetch, ds[i]) == fetch(rs[i].name).1;
  }

  /** A list with a text that no branch reads, such as `[v,)`, never solves: at the head reading raises, and
      later the repeated dependency is fetched twice under one name. */
  lemma NugetUnreadNeverSolves(front: seq<string>, name: string, range: string, rest: seq<string>, fetch: Fetcher, graceful: bool)
    requires FreeOf(name, {' '}) && Nuget.Cascade(range) == Nuget.Stale
    ensures var read := Nuget.ReadAll(front + [name + " " + range] + rest, None);
            read.Err? || !Solvable(read.value, fetch, graceful)
  {
    var text := [name + " " + range];
    var read := Nuget.ReadAll(front + text + rest, None);
    if Nuget.ReadAll(front, None).Err? {
      assert front + text + rest == front + (text + rest);
      Nuget.ReadConcat(front, text + rest, None);
    } else {
      var n := |front|;
      Nuget.StaleRepeats(front, name, range, rest);
      Nuget.ReadLength(front, None);
      if read.Ok? {
        assert read.value[n - 1] == read.value[n];
        assert FetchedNames(read.value, fetch)[n - 1] == FetchedNames(read.value, fetch)[n];
      }
    }
  }

  /** PypiSolver answers with the highest release for which every specifier of the requirement holds. */
  lemma PypiSolves(name: string, specifiers: seq<Pypi.Specifier>, solved: map<string, Answer>, deps: seq<Dependency>,
                   k: nat, fetch: Fetcher, graceful: bool)
    requires forall s | s in specifiers :: Pypi.WellSplit(s)
    requires k < |deps| && Pypi.ParsePython(name, specifiers) == Ok(deps[k])
    requires Solved(solved, deps, fetch, graceful, false, true)
    ensures AnswersBest(solved, fetch(name).0, fetch(name).1, (v: string) => Pypi.RequirementHolds(v, specifiers), true)
  {
    forall v ensures deps[k].name == name && (Check(v, deps[k]) <==> Pypi.RequirementHolds(v, specifiers)) {
      Pypi.ParsePythonMeaning(name, specifiers, v);
    }
    SolvedMeans(solved, deps, k, fetch, graceful, true, (v: string) => Pypi.RequirementHolds(v, specifiers));
  }

  /** A single `~=V` over numeric releases is answered with the highest release compatible with V. */
  lemma PypiSolvesCompatible(name: string, release: seq<string>, solved: map<string, Answer>, deps: seq<Dependency>,
                             k: nat, fetch: Fetcher, graceful: bool)
    requires |release| >= 2 && Pypi.Release(release) && forall r | r in fetch(name).1 :: AllNumeric(r)
    requires k < |deps| && Pypi.ParsePython(name, [Pypi.Specifier(Pypi.Compatible, Join(release, "."), release)]) == Ok(deps[k])
    requires Solved(solved, deps, fetch, graceful, false, true)
    ensures AnswersBest(solved, fetch(name).0, fetch(name).1, (v: string) => Pypi.CompatibleWith(v, release), true)
  {
    Pypi.SoleCompatible(name, release);
    forall v | v in fetch(name).1 ensures Check(v, deps[k]) <==> Pypi.CompatibleWith(v, release) {
      Pypi.CompatibleRelease(release, v);
      Pypi.PipSpecMeaning(name, [Pypi.CompatibleSpec(release).value], v);
    }
    SolvedMeans(solved, deps, k, fetch, graceful, true, (v: string) => Pypi.CompatibleWith(v, release));
  }
}
