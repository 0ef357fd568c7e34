# fabric8-analytics-worker: a verified model

A Dafny 4.11 model of the parts of the worker that carry its order theory, its
parsers, its stored state and its concurrency. `dafny verify dfyconfig.toml`
checks the whole project.

| file | models |
|---|---|
| `Common.dfy`, `Text.dfy`, `Sorting.dfy` | results and exceptions, Python string operations, the stable `sorted` |
| `Versions.dfy` | `compare_version`: component lists, zero padding, the order on versions |
| `Dependencies.dfy` | `Dependency.check`: or-of-ands of comparators |
| `Pypi.dfy` | `~=` rewriting and the wrapping of several specifiers |
| `Npm.dfy` | reading comparators and range texts |
| `Nuget.dfy` | the ordered pattern cascade over interval texts |
| `Bounds.dfy` | conjunctions of bounds: when one is satisfiable, what it implies |
| `Restrict.dfy`, `RestrictLaws.dfy` | `restrict_versions`; what it keeps of the meaning, and when |
| `Compose.dfy` | `compose_sep` and reading its output back |
| `Solve.dfy`, `Solvers.dfy` | `Solver.solve`, and three ecosystem solvers from requirement text to picked version |
| `Maven.dfy` | Maven coordinates: printer, parser, repository path, source-jar requests |
| `ThreadPool.dfy` | the thread pool as interleaved steps |
| `Upstreams.dfy` | `InitPackageFlow` as a state machine over the table of upstreams |
| `S3Keys.dfy`, `TaskResults.dfy` | object keys, `BaseTask.run`, storing, collecting and retrieving results |
| `LockTree.dfy`, `LockScan.dfy` | the npm lock file, rebuilt and flattened; scanned by `get_npm_dependencies` |
| `Manifests.dfy` | the selection of a Python manifest |

How the code is represented: exceptions are `Err` values; a dict whose order
matters is a list of keys beside a map; a database table is a sequence or a map
of rows; interleavings are lists of steps. What the environment decides is a
parameter: the text printed by `semver-ranger`, the releases a fetcher lists,
URL validation, the clock, whether a target raises, S3 version ids.

## Findings

The code is modelled as it is. Where it departs from what its comments, its
docstrings or the notation it reads promise, a lemma names the inputs and the
exact condition is proved.

- `~=V` lets in the pre-releases of its own upper bound (`~=1.4.2` accepts
  `1.5.rc`). When something is glued to its last number (`~=1.4.2-1`,
  `~=1.4.2post1`), that number is dropped: with two numbers left `1.5` is let
  in, with one (`~=2.2-1`) `IndexError` is raised. On numeric releases it agrees
  with PEP 440, section "Compatible release".
- The npm reader reads `!=v` as `=v`, and every other operator as written.
- Of the bracket notations with one comma, blanks next to a version allowed, the
  NuGet cascade reads as meant exactly `[a,b]`, `[a,b)`, `(a,b)`, `(v,)`,
  `[v, )` with one blank at the open end, `(,v]` and `(,v)`. `[v,)`, `[,v)`,
  `(v,]` and `(a,b]` match no branch, so the dependency read before is appended again,
  or `UnboundLocalError` is raised, and no list with such a text ever solves;
  `[v,]` and `[,v]` are read as an equality; in `(v, )` the blank becomes an
  upper bound that no numeric version is below.
- `restrict_versions` keeps the meaning of `>`, `>=`, `<`, `<=`. For another
  operator it appends what the loop variable still holds: the version picked for
  the nearest bound before it, also of another package, and without one the last
  version given at all: `a =1` with `b =2` becomes `a =2` with `b =2`. Entries
  that are no pairs are dropped, which loses a pinned version unless the pairs
  force it, and a list of two comparators is unpacked like an operator and a
  version.
- `ThreadPool.join` can block although every task was queued before the start,
  exactly when there are tasks and, the last one aside, at least as many targets
  raise as there are workers. With tasks added after the start, as inside a
  `with` block, it can always block: all workers may have left before.
- A package flow run with an invalid URL adds a new upstream record every time.
- A package flow run leaves the package without an active record exactly when it
  is not forced, goes back to a URL whose older record was scheduled within five
  days, and the rollback keeps the deactivation of the current record, if any,
  and nothing else; the query for older records sends that deactivation, and
  under AUTOCOMMIT it stays. Moving from one URL to another and back is such an
  input.
- In `get_npm_dependencies` the `dev` mark of the parent decides for its
  children: the right labels come out exactly when, for distinct labels, every
  child has its parent's mark. Nothing below the second level is collected.
- Coordinates with a classifier share a repository path with others exactly when
  a dot can move between classifier and packaging; without a classifier, never.

## Model

| member | source | states |
|---|---|---|
| Text.PyIntExact | f8a_worker/solver.py:58-64 | int() reads a text iff, stripped, it is an optional sign and runs of digits joined by single underscores; the value is positional |
| Text.OtherRefused | f8a_worker/solver.py:61-64 | it refuses every text with any character but digits, underscores, signs and blanks |
| Versions.Range | f8a_worker/solver.py:50-65 | the parts between dots and dashes, in order: the value of what int() reads, -1 for what it refuses |
| Versions.AppendZeros | f8a_worker/solver.py:67-77 | a copy with that many zeros at the end |
| Versions.CompareVersion | f8a_worker/solver.py:43-96 | the result is the sign of the first difference between the zero-extended lists |
| Versions.CompareIsOrder | f8a_worker/solver.py:79-96 | padding only to the longer of the two agrees with comparing infinite zero-extended lists |
| Versions.CompareMeaning | f8a_worker/solver.py:94-96 | negative iff the first infinite list is smaller at the first difference, positive iff the second is, zero iff the lists agree without trailing zeros |
| Versions.CompareTotalPreorder | f8a_worker/solver.py:43-96 | for any three version texts: sign antisymmetry, reflexivity, transitivity, and equal versions compare alike with every third one |
| Versions.CompareStrip | f8a_worker/solver.py:58-65 | blanks around a version do not change how it compares |
| Dependencies.AnnotationOrder | f8a_worker/solver.py:58-65 | dots and dashes separate alike, and added parts compare as they compare to zero: an rc, alpha or beta makes a version lower, a number higher |
| Dependencies.GluedBelow | f8a_worker/solver.py:58-65 | glued to the last number, an annotation makes any version lower: `2.0rc1` comes before `2.0` |
| Dependencies.ComparatorMeaning | f8a_worker/solver.py:356-375 | every operator means its relation between the infinite lists; a one-element tuple means equality |
| Dependencies.ConjunctionOfLeaves | f8a_worker/solver.py:377-378 | a conjunction nested to any depth means the conjunction of its comparators |
| Dependencies.CheckCongruent | f8a_worker/solver.py:350-380 | versions that compare equal are accepted alike by every dependency |
| Dependencies.AcceptsConvex | f8a_worker/solver.py:356-380 | a clause without `!=` accepts every version between two accepted ones |
| Dependencies.ExclusionNotConvex | f8a_worker/solver.py:372-373 | `!=` never accepts a convex set, for any excluded version |
| Pypi.CompatibleUpper | f8a_worker/solver.py:419-429 | the loop that strips the tail and increments the last but one segment yields the upper bound, or the exception the code raises |
| Pypi.CompatibleReleaseExact | f8a_worker/solver.py:417-429 | with any tail and any version w: `~=V` accepts w iff w >= V and w starts with the prefix of V or is a pre-release of the bumped prefix |
| Pypi.CompatibleRelease | f8a_worker/solver.py:417-429 | for numeric V and w this is the PEP 440 meaning: at least V, and the same first n-1 components |
| Pypi.CompatibleAdmitsNextPrerelease | f8a_worker/solver.py:417-429 | every `~=V` accepts a version outside the prefix of V: the pre-release of its upper bound |
| Pypi.ReadExactly | f8a_worker/solver.py:419-429 | `~=V` is read iff two numbers stand before the pieces that are none; else ValueError for a lone piece and IndexError for more |
| Pypi.GluedTailWidens | f8a_worker/solver.py:420-427 | for every V of three or more pieces with something glued to its last number, `~=V` accepts the release with the last number before it incremented |
| Pypi.DashedPostReleaseWidens | f8a_worker/solver.py:420-427 | so for every V of three or more segments ending in a dashed post-release |
| Pypi.PipSpecMeaning | f8a_worker/solver.py:448-458 | the wrapped specifiers mean their conjunction; no specifier accepts what is not below zero |
| Pypi.ParsePythonMeaning | f8a_worker/solver.py:409-466 | a requirement is read iff each `~=` is readable, and then accepts exactly the versions for which every specifier holds: each operator by its relation, `===` as equality, `~=` by its exact condition |
| Npm.ReadBack | f8a_worker/solver.py:489-494 | a comparator over six operators, or a bare version, is read back unchanged |
| Npm.ExclusionMisread | f8a_worker/solver.py:39-40 | `!=v` is read as `=v`: the accepted set is the complement of the meant one |
| Npm.ReadingExact | f8a_worker/solver.py:489-494 | a comparator is read with its own meaning iff its operator is not `!=` |
| Npm.WrittenOperators | f8a_worker/solver.py:30-43 | `>=`, `<=`, `==`, `>`, `<` and `=` as written are read as such, before any version |
| Npm.ParseNpm | f8a_worker/solver.py:496-523 | the loop over the clauses yields the dependency, None for `null`, or the AssertionError of a clause with two blanks |
| Npm.ReadOutcomes | f8a_worker/solver.py:503-523 | None iff the ranger prints null; AssertionError iff a clause of its text holds two blanks |
| Npm.RangeMeaning | f8a_worker/solver.py:503-523 | for all clause lists joined by the bars: check on the result is the or-of-ands meaning of the text |
| Npm.StarAcceptsNumeric | f8a_worker/solver.py:503-519 | `*` and `latest` accept every all-numeric version |
| Nuget.Parse | f8a_worker/solver.py:598-653 | the loop keeps `dep` across rounds: a text without a branch repeats it or raises |
| Nuget.CascadeTable | f8a_worker/solver.py:610-649 | the outcome of the ordered cascade on every bracket notation with one comma, open or closed, with any text or none on either side, blanks included |
| Nuget.IntervalExact | f8a_worker/solver.py:610-649 | a notation yields a new dependency accepting exactly the versions inside, blank ends unbounded, iff it has a recognised shape |
| Nuget.BlankUpperEnd | f8a_worker/solver.py:618-620 | `(v, )` is read with the blank as its upper end |
| Nuget.BlankBoundRefuses | f8a_worker/solver.py:367-371 | a blank read as an upper bound refuses every numeric version |
| Nuget.ParseRecognised | f8a_worker/solver.py:606-653 | a list of recognised requirements is read in order, each under its name with its interval, whatever came before |
| Nuget.OtherForms | f8a_worker/solver.py:610-649 | a bare version, `[v]` and `[v, )` are recognised, `(v)` is refused |
| Nuget.StaleRepeats | f8a_worker/solver.py:607-651 | an unread text at any position repeats the dependency read before it and reading goes on; at the head of the list it raises |
| Nuget.RefusedRaises | f8a_worker/solver.py:608-649 | at any position a text without a blank, or with a range the last branch refuses, raises ValueError |
| Nuget.OpenLowerBoundIsStale | f8a_worker/solver.py:632-651 | `[v,)` is such a text for every v |
| Bounds.SatisfiableExact | f8a_worker/solver.py:364-371 | some version satisfies a list of `>`, `>=`, `<`, `<=` iff no lower bound clashes with an upper one: the order is dense and has no ends |
| Bounds.ImpliedExact | f8a_worker/solver.py:356-375 | such a list implies a comparator of any operator iff the list makes its negation clash |
| Restrict.Collect | f8a_worker/solver.py:557-565 | the dict of dicts of lists holds, per name and key in order of first occurrence, all versions unpacked; a list as key raises TypeError |
| Restrict.RestrictAll | f8a_worker/solver.py:542-580 | both loops together produce the specified result for every input, the leftover `version`, skipped entries and unpacked lists of two included |
| RestrictLaws.RestrictShape | f8a_worker/solver.py:567-580 | the names stay in order of first occurrence, and under each every operator given for it appears once |
| RestrictLaws.RestrictMeaning | f8a_worker/solver.py:567-580 | for flat specs over the four bounds a release satisfies all that is given for a name iff it satisfies what is left |
| RestrictLaws.RestrictIdempotent | f8a_worker/solver.py:542-580 | for such specs a second application changes nothing |
| RestrictLaws.StandsBefore | f8a_worker/solver.py:569-576 | the version standing before a group is the one picked for the nearest group of a bound before it, across packages, or the last version given at all |
| RestrictLaws.LeftoverExact | f8a_worker/solver.py:569-576 | for all flat dependencies and every group of a name and an operator: the comparator left means those given iff the operator is a bound or that version, read off the input, equals each of theirs |
| RestrictLaws.KeptMeaning | f8a_worker/solver.py:569-580 | a name whose comparators all satisfy that condition keeps its meaning |
| RestrictLaws.LeftoverCrosses | f8a_worker/solver.py:563-576 | of two packages with one such comparator each, the first gets the version of the second |
| RestrictLaws.DroppedExact | f8a_worker/solver.py:561-564 | whatever else is given beside bounds, nothing is lost iff no entry is a list of two and every other entry that is no pair is forced by the pairs |
| RestrictLaws.PinDropped | f8a_worker/solver.py:561-562 | a pinned version given alone leaves nothing |
| Compose.ComposeSep | f8a_worker/solver.py:391-404 | one key per name with its dependencies' comparators joined in order; entries that are not pairs raise, the first failing dependency deciding what |
| Compose.ErrorKinds | f8a_worker/solver.py:402-404 | ValueError for an entry of another length than two, TypeError for two things that do not add up to a text |
| Compose.ComposeReadBack | f8a_worker/solver.py:390-404 | splitting the composed text and reading the pieces returns all comparators of the name, in order |
| Solve.SolveAll | f8a_worker/solver.py:719-759 | succeeds iff no two dependencies are fetched under one name (and, ungracefully, all have releases); then one key each: an accepted release that none exceeds (undercuts), the last (first) fetched of those that tie, None iff none is accepted, or with all versions the sorted permutation of exactly the accepted ones, ties in fetched order |
| Solve.MatchingExact | f8a_worker/solver.py:742-744 | filtering and sorting yields a sorted permutation of exactly the accepted releases, ties in fetched order |
| Solve.PickExact | f8a_worker/solver.py:748-757 | so every answer is an accepted release that none exceeds (undercuts, for the lowest), and None iff none is accepted |
| Solve.WideningMonotone | f8a_worker/solver.py:748-757 | widening a spec never lowers the highest pick, never raises the lowest and never loses it |
| Solvers.NpmSolves | f8a_worker/solver.py:772-779 | in every solved list, the answer to a range text is the highest release satisfying some clause |
| Solvers.NugetSolves | f8a_worker/solver.py:782-794 | in every solved list, the answer to an interval text is the lowest release inside |
| Solvers.NugetSolvesAll | f8a_worker/solver.py:719-759 | from a list of requirement texts to the answers: solved iff fetched under different names (and, ungracefully, with releases), each with the lowest release inside its interval |
| Solvers.NugetUnreadNeverSolves | f8a_worker/solver.py:651-735 | a list with a text that no branch reads never solves, graceful or not |
| Solvers.PypiSolves | f8a_worker/solver.py:762-769 | in every solved list, the answer to a requirement is the highest release for which every specifier holds |
| Solvers.PypiSolvesCompatible | f8a_worker/solver.py:762-769 | for `~=V` over numeric releases, the highest compatible release |
| Maven.ToStr | f8a_worker/utils.py:347-365 | the text built by appending is the colon-joined list of the fields that have to be shown |
| Maven.ParseString | f8a_worker/utils.py:383-405 | the dict filled by colon count holds the constructor's arguments; other counts raise ValueError |
| Maven.WrittenForms | f8a_worker/utils.py:347-405 | what each of the four written forms denotes, an empty packaging meaning jar |
| Maven.RoundTrip | f8a_worker/utils.py:347-428 | for all colon-free coordinates parsing the print gives them back, with the version cleared when it was omitted |
| Maven.AcceptsByColons | f8a_worker/utils.py:392-403 | a text is accepted iff it has one to four colons |
| Maven.NormalForm | f8a_worker/utils.py:419-428 | normalising is idempotent; two texts normalise alike iff they denote equal coordinates |
| Maven.RepoUrlLayout | f8a_worker/utils.py:367-381 | the path leads through the parts of the group, artifact and version to artifact, version and classifier joined by dashes, and the packaging behind a dot |
| Maven.RepoUrlExact | f8a_worker/utils.py:367-381 | slash-free coordinates share a path iff they are equal, or name one artifact with two classifiers that agree once a dot and the packaging are appended |
| Maven.CollidesExactly | f8a_worker/utils.py:376-381 | coordinates share their path with others iff they have a classifier and a dot to move between classifier and packaging |
| Maven.RepoUrlInjective | f8a_worker/utils.py:367-381 | slash-free coordinates with dot-free packaging share a path iff they are equal |
| Maven.DottedPackagingCollides | f8a_worker/utils.py:376-381 | for every classifier and every dotted part, the two coordinates between which the part moves share a path |
| Maven.DownloadSourceJar | f8a_worker/workers/init_analysis_flow.py:121-143 | first `sources`, then `src`, nothing for source coordinates, and the last failure is raised |
| Maven.RequestReadBack | f8a_worker/workers/init_analysis_flow.py:124-137 | the receiver of a request reads the same artifact as a jar with classifier `sources`, then `src`, without version |
| ThreadPool.Conservation | f8a_worker/utils.py:267-291 | in every interleaving, tasks added at any time: each is queued, running or finished as often as added, and the counter is queued plus running |
| ThreadPool.RunsAreFinite | f8a_worker/utils.py:282-291 | without further tasks a run has at most three steps per task and one per worker left |
| ThreadPool.RunsHalt | f8a_worker/utils.py:282-291 | every pool can be run until no worker moves |
| ThreadPool.HaltedIsDone | f8a_worker/utils.py:273-291 | with enough workers every maximal run has run each task exactly once and join returns |
| ThreadPool.JoinExact | f8a_worker/utils.py:273-291 | join returns in every maximal run iff there are no tasks or, the last task aside, fewer tasks raise than there are workers |
| ThreadPool.LateTaskHangs | f8a_worker/utils.py:267-297 | for all tasks queued before and all tasks added after the start, some maximal run leaves late tasks untaken and join blocked |
| ThreadPool.LateJoinExact | f8a_worker/utils.py:267-297 | join returns in every maximal run iff nothing is added after the start and there are enough workers |
| Upstreams.Session.GetUpstreamEntry | f8a_worker/workers/init_package_flow.py:40-67 | the loop deactivates the active records with another URL and returns the last one kept |
| Upstreams.Session.AddOrUpdateUpstream | f8a_worker/workers/init_package_flow.py:69-104 | reactivates the latest older record of the URL or adds one with the validated URL |
| Upstreams.Session.Execute | f8a_worker/workers/init_package_flow.py:106-170 | one run changes the table as specified, after a commit or a rollback that keeps any prefix of the pending changes |
| Upstreams.RunEffect | f8a_worker/workers/init_package_flow.py:40-170 | what a run does to every record: superseded ones get the time of the lookup, the scheduled one is active with the validated URL and the time of scheduling, a new one the time of adding, all others stay; a skipped run keeps some of it |
| Upstreams.RunKeepsGood | f8a_worker/workers/init_package_flow.py:106-170 | one active record per package and one record per valid URL survive every run |
| Upstreams.HistoryInvariant | f8a_worker/workers/init_package_flow.py:40-170 | they hold at every point of every serial history from the empty table, and updated_at is the last scheduling |
| Upstreams.ScheduledExactly | f8a_worker/workers/init_package_flow.py:144-166 | a run schedules iff it is forced, or its record was never scheduled, or that was at least five days ago |
| Upstreams.OrderIrrelevant | f8a_worker/workers/init_package_flow.py:50-84 | the ordering of both queries never matters for valid URLs |
| Upstreams.AddsExactly | f8a_worker/workers/init_package_flow.py:79-154 | with a URL given, the table after a run has a record more iff the package had none with that URL, whatever a rollback keeps |
| Upstreams.LosesActiveExactly | f8a_worker/workers/init_package_flow.py:58-154 | a run leaves its package without an active record iff table and arguments say so: unforced, no active record with the URL, an older one scheduled lately, and only the deactivation kept |
| Upstreams.ActiveLost | f8a_worker/workers/init_package_flow.py:79-154 | for any two valid URLs, a table and arguments with that outcome |
| Upstreams.InvalidUrlAlwaysAdds | f8a_worker/workers/init_package_flow.py:94-101 | a run with an invalid URL always adds and schedules a record |
| S3Keys.KeyLayout | f8a_worker/storages/s3_data_base.py:41-51 | a key leads through ecosystem, parts of the name and version to the task |
| S3Keys.TaskKeyInjective | f8a_worker/storages/s3_data_base.py:41-51 | two task results share a key iff package version and task agree, names with slashes allowed |
| S3Keys.AdmittedKeysInjective | f8a_worker/workers/init_analysis_flow.py:20-50 | so for all versions the admission pattern lets through |
| S3Keys.BaseMeetsTask | f8a_worker/storages/s3_data_base.py:53-84 | a base record has the key of a task result iff its name ends in the other version; never within one package version |
| TaskResults.Run | f8a_worker/base.py:66-131 | refused iff a row exists; else the validated result, unchanged but for the two audit keys, or after an exception just these; audited results are always real |
| TaskResults.AuditedIsReal | f8a_worker/base.py:43-64 | a result with audit information is never mistaken for a reference |
| TaskResults.UnauditedIsReal | f8a_worker/storages/postgres_base.py:175-179 | any other result is taken for a reference iff it is empty or a lone version_id |
| TaskResults.Storage.Save | f8a_worker/storages/postgres_base.py:117-133 | the first writer of an id wins |
| TaskResults.Storage.SaveError | f8a_worker/storages/postgres_base.py:135-166 | so for errors, which init tasks and refused duplicates do not leave |
| TaskResults.Storage.DoRun | f8a_worker/workers/result_collector.py:15-42 | the collecting loop is a run of the steps below, replaces exactly the real lower-case results by references, and leaves each of these results in its S3 object |
| TaskResults.RunFaithful | f8a_worker/workers/result_collector.py:15-42 | in every interleaving each row is the first one stored, or a reference standing for a real lower-case first result that its S3 object holds |
| TaskResults.RetrieveFirst | f8a_worker/storages/postgres_base.py:84-112 | at every point of every interleaving a real first result is retrieved unchanged, under its own task name only |
| TaskResults.BaseRecordListsAll | f8a_worker/storages/s3_data_base.py:14-75 | in every interleaving, the stored base record lists after each writing exactly the tasks with a row and those listed before the run, book-keeping ones left out, beside the record without its access count |
| LockTree.ProcessLevel | f8a_worker/data_normalizer/javascript.py:262-275 | the recursive loop appends the rebuilt level |
| LockTree.BuildKeeps | f8a_worker/data_normalizer/javascript.py:262-275 | the rebuilt tree has the paths of the lock file, and at each the name, version, origin and resolved URL of the node; dev iff the node says true |
| LockTree.FlattenInto | f8a_worker/workers/graphaggregator.py:103-108 | the recursive loop appends the flattened tree |
| LockTree.FlattenConserves | f8a_worker/workers/graphaggregator.py:103-108 | flattening the rebuilt lists gives one entry per node path, all paths, in ascending order, ancestors first |
| LockScan.GetNpmDependencies | f8a_worker/workers/dependency_parser.py:215-236 | the nested loops collect the labels of two levels, gated by the parent's dev mark |
| LockScan.NpmExact | f8a_worker/workers/dependency_parser.py:215-236 | the collected names are names of nodes, and for distinct ones all of them iff the lock file has two levels and no dev mark at the top |
| LockScan.DevExact | f8a_worker/workers/dependency_parser.py:219-236 | the collected names are those of the first two levels not marked dev themselves if, and for distinct names only if, every child has its parent's mark |
| LockScan.ParentDecides | f8a_worker/workers/dependency_parser.py:229-236 | a child is collected iff its parent is not marked dev, whatever its own mark |
| Manifests.MergePythonItems | f8a_worker/workers/mercator.py:175-267 | after one pass each candidate is the first minimum of its kind, and the choice is the one that follows from the three, which are unique: a wheel at two levels, a source distribution at most five levels below the top |
| Manifests.CandidateMeaning | f8a_worker/workers/mercator.py:192-219 | the candidates are the shallowest of their kind, a PKG-INFO in .egg-info going before any other |
| Manifests.DepthMeaning | f8a_worker/workers/mercator.py:180-181 | a file is one deeper than its directory; slashes at the end do not count |
| Manifests.OrderIndependent | f8a_worker/workers/mercator.py:192-219 | a candidate is the same in every order of the listing iff no two items share the minimum |
| Manifests.ChoiceIndependent | f8a_worker/workers/mercator.py:192-267 | then the chosen manifest is the same too |
| Manifests.OutermostExact | f8a_worker/workers/mercator.py:269-277 | exactly the items of the smallest depth, in their original order |

## Left out

- LockTree.ProcessLevel: works on values, so that an item is appended before its list of children is filled is not captured.
- Npm.ParseNpm: starts from the text printed by `semver-ranger`; the loop of `parse` that skips None and the text replacements of `OSSIndexDependencyParser` are not modelled.
- TaskResults.Storage.DoRun: does not model the IndexError of an empty worker name, and treats an old base record without a list under `analyses` as an empty one; the JSON forms of the times in it are not modelled.
- TaskResults.RetrieveFirst: covers collections of one analysis per package version; a second analysis of the same version overwrites the S3 objects of the first. The package-level storage, which shares `retrieve`, is not covered.
- Non-ASCII digits, blanks and capitals in `int()`, `isdigit()` and `isupper()`.
- Operators outside `Tokens.operators`, which no parser produces, and the `==x.*` rewriting by `semver-ranger`.
- pip's requirement files and packaging's `_version_split`: the pieces of a version are given.
- The ordering of ties by `ORDER BY`, and records of the upstream table with a NULL URL, which the flow never writes.
- Concurrent package flow runs, which the code does not lock against.
- The checks of `InitPackageFlow.execute` and `InitAnalysisFlow.execute` that refuse unknown ecosystems and private packages.
- The other keys of the lock file and of a manifest, and the package.json branch of `get_npm_dependencies`.
- `GolangSolver`, `MavenSolver`, `NoOpDependencyParser` and the release fetchers: no range logic of their own, or external commands.
- Database, S3, Celery and Selinon internals, schemas, metadata normalisation other than the lock file, graph queries.
