// MavenCoordinates (f8a_worker/utils.py): printing, parsing and the repository
// path, and the rewriting for source jars (f8a_worker/workers/init_analysis_flow.py).
module Maven {
  import opened Common
  import opened Text

  datatype Coordinates = Coordinates(
    groupId: string, artifactId: string, version: string, classifier: string, packaging: string)

  const DEFAULT_PACKAGING := "jar"

  /** __init__: an empty packaging becomes the default. */
  function New(groupId: string, artifactId: string, version: string, classifier: string, packaging: string): Coordinates {
    Coordinates(groupId, artifactId, version, classifier, if packaging == "" then DEFAULT_PACKAGING else packaging)
  }

  /** The fields to_str prints, in order; how many there are tells which are present. */
  function Fields(c: Coordinates, omitVersion: bool): seq<string> {
    var pack := if c.packaging == DEFAULT_PACKAGING then "" else c.packaging;
    var version := if omitVersion then "" else c.version;
    if c.classifier != "" then [c.groupId, c.artifactId, pack, c.classifier, version]
    else if pack != "" then [c.groupId, c.artifactId, pack, version]
    else if version != "" then [c.groupId, c.artifactId, version]
    else [c.groupId, c.artifactId]
  }

  /** Every colon-separated form written out from the fields. */
  method ToStr(c: Coordinates, omitVersion: bool) returns (mvnstr: string)
    ensures mvnstr == Join(Fields(c, omitVersion), ":")
  {
    mvnstr := c.groupId + ":" + c.artifactId;
    ghost var fields := [c.groupId, c.artifactId];
    var pack := c.packaging;
    if pack == DEFAULT_PACKAGING {
      pack := "";
    }
    if pack != "" {
      mvnstr, fields := mvnstr + ":" + pack, AddField(mvnstr, fields, pack);
    }
    if c.classifier != "" {
      if pack == "" {
        mvnstr, fields := mvnstr + ":", AddField(mvnstr, fields, "");
      }
      mvnstr, fields := mvnstr + ":" + c.classifier, AddField(mvnstr, fields, c.classifier);
    }
    if c.version == "" || omitVersion {
      if c.classifier != "" || pack != "" {
        mvnstr, fields := mvnstr + ":", AddField(mvnstr, fields, "");
      }
    } else {
      mvnstr, fields := mvnstr + ":" + c.version, AddField(mvnstr, fields, c.version);
    }
    assert fields == Fields(c, omitVersion);
  }

  ghost function AddField(text: string, fields: seq<string>, field: string): (r: seq<string>)
    requires fields != [] && text == Join(fields, ":")
    ensures r == fields + [field] && Join(r, ":") == text + ":" + field
    ensures field == "" ==> Join(r, ":") == text + ":"
  {
    JoinConcat(fields, [field], ":");
    fields + [field]
  }

  function CoordText(c: Coordinates, omitVersion: bool): string {
    Join(Fields(c, omitVersion), ":")
  }

  /** _parse_string followed by the constructor: the number of colons tells which fields are given. */
  function FromStr(text: string): Result<Coordinates> {
    var p := SplitOn(text, ":");
    match |p| - 1
    case 1 => Ok(New(p[0], p[1], "", "", DEFAULT_PACKAGING))
    case 2 => Ok(New(p[0], p[1], p[2], "", DEFAULT_PACKAGING))
    case 3 => Ok(New(p[0], p[1], p[3], "", p[2]))
    case 4 => Ok(New(p[0], p[1], p[4], p[3], p[2]))
    case _ => Err(ValueError)
  }

  method ParseString(text: string) returns (r: Result<map<string, string>>)
    ensures r.Ok? <==> FromStr(text).Ok?
    ensures r.Err? ==> r.error == ValueError
    ensures r.Ok? ==>
              var a := r.value;
              && a.Keys == {"groupId", "artifactId", "version", "classifier", "packaging"}
              && FromStr(text) == Ok(New(a["groupId"], a["artifactId"], a["version"], a["classifier"], a["packaging"]))
  {
    var a := map["groupId" := "", "artifactId" := "", "packaging" := DEFAULT_PACKAGING, "classifier" := "", "version" := ""];
    SplitPieces(text, ':');
    var ncolons := Count(text, ':');
    var p := SplitOn(text, ":");
    if ncolons < 1 || ncolons > 4 {
      return Err(ValueError);
    }
    a := a["groupId" := p[0]]["artifactId" := p[1]];
    if ncolons == 2 {
      a := a["version" := p[2]];
    } else if ncolons == 3 {
      a := a["packaging" := p[2]]["version" := p[3]];
    } else if ncolons == 4 {
      a := a["packaging" := p[2]]["classifier" := p[3]]["version" := p[4]];
    }
    r := Ok(a);
  }

  function NormalizeStr(text: string): Result<string> {
    match FromStr(text)
    case Err(e) => Err(e)
    case Ok(c) => Ok(CoordText(c, false))
  }

  /** The four written forms, by the number of colons; an empty packaging means jar. */
  lemma WrittenForms(g: string, a: string, p: string, c: string, v: string)
    requires FreeOf(g, {':'}) && FreeOf(a, {':'}) && FreeOf(p, {':'}) && FreeOf(c, {':'}) && FreeOf(v, {':'})
    ensures var pack := if p == "" then "jar" else p;
            && FromStr(g + ":" + a) == Ok(Coordinates(g, a, "", "", "jar"))
            && FromStr(g + ":" + a + ":" + v) == Ok(Coordinates(g, a, v, "", "jar"))
            && FromStr(g + ":" + a + ":" + p + ":" + v) == Ok(Coordinates(g, a, v, "", pack))
            && FromStr(g + ":" + a + ":" + p + ":" + c + ":" + v) == Ok(Coordinates(g, a, v, c, pack))
  {
    var two := g + ":" + a;
    var three := AddField(two, [g, a], p);
    var four := AddField(two + ":" + p, three, c);
    SplitFields([g, a]);
    SplitFields(AddField(two, [g, a], v));
    SplitFields(AddField(two + ":" + p, three, v));
    SplitFields(AddField(two + ":" + p + ":" + c, four, v));
  }

  lemma SplitFields(fields: seq<string>)
    requires fields != [] && forall i | 0 <= i < |fields| :: FreeOf(fields[i], {':'})
    ensures SplitOn(Join(fields, ":"), ":") == fields
  {
    forall f | f in fields ensures FreeOf(f, {':'}) {
    }
    SplitJoin(fields, ":");
  }

  // ----- round trips -----

  predicate ColonFree(c: Coordinates) {
    FreeOf(c.groupId, {':'}) && FreeOf(c.artifactId, {':'}) && FreeOf(c.version, {':'}) &&
    FreeOf(c.classifier, {':'}) && FreeOf(c.packaging, {':'})
  }

  /** Printing and parsing returns the coordinates, with the version cleared when it was left out;
      the constructor never leaves the packaging empty. */
  lemma RoundTrip(c: Coordinates, omitVersion: bool)
    requires ColonFree(c) && c.packaging != ""
    ensures FromStr(CoordText(c, omitVersion)) == Ok(if omitVersion then c.(version := "") else c)
  {
    var f := Fields(c, omitVersion);
    forall p | p in f ensures FreeOf(p, {':'}) {
    }
    SplitJoin(f, ":");
  }

  lemma ParsedColonFree(text: string)
    requires FromStr(text).Ok?
    ensures ColonFree(FromStr(text).value) && FromStr(text).value.packaging != ""
  {
    SplitPieces(text, ':');
    var p := SplitOn(text, ":");
    assert p == SplitOn(text, [':']);
    assert forall i | 0 <= i < |p| :: p[i] in p;
  }

  /** A text is accepted exactly when it has one to four colons. */
  lemma AcceptsByColons(text: string)
    ensures FromStr(text).Ok? <==> 1 <= Count(text, ':') <= 4
  {
    SplitPieces(text, ':');
  }

  /** Normalising is idempotent, and two texts normalise alike exactly when they denote equal coordinates. */
  lemma NormalForm(text: string, other: string)
    requires FromStr(text).Ok? && FromStr(other).Ok?
    ensures NormalizeStr(NormalizeStr(text).value) == NormalizeStr(text)
    ensures FromStr(NormalizeStr(text).value) == FromStr(text)
    ensures NormalizeStr(text) == NormalizeStr(other) <==> FromStr(text) == FromStr(other)
  {
    ParsedColonFree(text);
    ParsedColonFree(other);
    RoundTrip(FromStr(text).value, false);
    RoundTrip(FromStr(other).value, false);
  }

  // ----- the repository path -----

  function Directory(c: Coordinates): string {
    Replace(c.groupId, '.', '/') + "/" + c.artifactId + "/" + c.version
  }

  function FileName(c: Coordinates): string {
    c.artifactId + "-" + c.version + (if c.classifier != "" then "-" + c.classifier else "") + "." + c.packaging
  }

  /** to_repo_url. */
  function RepoUrl(c: Coordinates): string {
    Directory(c) + "/" + FileName(c)
  }

  /** Artifact, version and classifier, if any, joined by dashes, and the packaging behind a dot. */
  lemma FileLayout(c: Coordinates)
    ensures FileName(c) == Join([c.artifactId, c.version] + (if c.classifier == "" then [] else [c.classifier]), "-") + "." + c.packaging
  {
    var front := [c.artifactId, c.version];
    if c.classifier == "" {
      assert front + [] == front;
    } else {
      JoinConcat(front, [c.classifier], "-");
    }
    assert Join(front, "-") == c.artifactId + "-" + c.version;
  }

  /** The path leads through the parts of the group, the artifact and the version to the file. */
  lemma RepoUrlLayout(c: Coordinates)
    requires SlashFree(c)
    ensures var name := Join([c.artifactId, c.version] + (if c.classifier == "" then [] else [c.classifier]), "-") + "." + c.packaging;
            SplitOn(RepoUrl(c), "/") == SplitOn(c.groupId, ".") + [c.artifactId, c.version, name]
  {
    var group := Replace(c.groupId, '.', '/');
    FileLayout(c);
    SplitReplaced(c.groupId);
    SplitEnd(group, '/', c.artifactId);
    SplitEnd(group + "/" + c.artifactId, '/', c.version);
    SplitEnd(Directory(c), '/', FileName(c));
    assert group + ['/'] + c.artifactId == group + "/" + c.artifactId;
    assert (group + "/" + c.artifactId) + ['/'] + c.version == Directory(c);
    assert Directory(c) + ['/'] + FileName(c) == RepoUrl(c);
    var parts := SplitOn(c.groupId, ".");
    assert ((parts + [c.artifactId]) + [c.version]) + [FileName(c)] == parts + [c.artifactId, c.version, FileName(c)];
  }

  /** Splitting after replacing the separator is splitting before. */
  lemma {:induction false} SplitReplaced(g: string)
    requires FreeOf(g, {'/'})
    ensures SplitOn(Replace(g, '.', '/'), "/") == SplitOn(g, ".")
  {
    if g != "" {
      assert Replace(g, '.', '/')[1..] == Replace(g[1..], '.', '/');
      SplitReplaced(g[1..]);
    }
  }

  predicate SlashFree(c: Coordinates) {
    FreeOf(c.groupId, {'/'}) && FreeOf(c.artifactId, {'/'}) && FreeOf(c.version, {'/'}) &&
    FreeOf(c.classifier, {'/'}) && FreeOf(c.packaging, {'/'})
  }

  lemma SamePath(c: Coordinates, d: Coordinates)
    requires SlashFree(c) && SlashFree(d) && RepoUrl(c) == RepoUrl(d)
    ensures c.groupId == d.groupId && c.artifactId == d.artifactId && c.version == d.version && FileName(c) == FileName(d)
  {
    assert FreeOf(FileName(c), {'/'}) && FreeOf(FileName(d), {'/'});
    CutAtLast(Directory(c), FileName(c), Directory(d), FileName(d), '/');
    var (g, h) := (Replace(c.groupId, '.', '/'), Replace(d.groupId, '.', '/'));
    CutAtLast(g + "/" + c.artifactId, c.version, h + "/" + d.artifactId, d.version, '/');
    CutAtLast(g, c.artifactId, h, d.artifactId, '/');
  }

  /** The file name after artifact and version. */
  function Ending(c: Coordinates): string {
    (if c.classifier != "" then "-" + c.classifier else "") + "." + c.packaging
  }

  predicate SameArtifact(c: Coordinates, d: Coordinates) {
    c.groupId == d.groupId && c.artifactId == d.artifactId && c.version == d.version
  }

  lemma EndingExact(c: Coordinates, d: Coordinates)
    ensures Ending(c) == Ending(d) <==>
            || (c.classifier == d.classifier && c.packaging == d.packaging)
            || (c.classifier != "" && d.classifier != "" &&
                c.classifier + "." + c.packaging == d.classifier + "." + d.packaging)
  {
    forall x | x in {c, d}
      ensures Ending(x) == if x.classifier == "" then "." + x.packaging else "-" + (x.classifier + "." + x.packaging)
    {
    }
    forall x | x in {c, d}
      ensures Ending(x)[1..] == if x.classifier == "" then x.packaging else x.classifier + "." + x.packaging
      ensures Ending(x)[0] == if x.classifier == "" then '.' else '-'
    {
    }
  }

  /** Slash-free coordinates share a path exactly when they are equal, or name the same artifact with two
      classifiers and a dot that moves between classifier and packaging. */
  lemma RepoUrlExact(c: Coordinates, d: Coordinates)
    requires SlashFree(c) && SlashFree(d)
    ensures RepoUrl(c) == RepoUrl(d) <==>
            SameArtifact(c, d) &&
            (c == d || (c.classifier != "" && d.classifier != "" &&
                        c.classifier + "." + c.packaging == d.classifier + "." + d.packaging))
  {
    if RepoUrl(c) == RepoUrl(d) {
      SamePath(c, d);
    }
    if SameArtifact(c, d) {
      var front := c.artifactId + "-" + c.version;
      assert FileName(c) == front + Ending(c) && FileName(d) == front + Ending(d);
      assert FileName(c)[|front|..] == Ending(c) && FileName(d)[|front|..] == Ending(d);
      EndingExact(c, d);
      if RepoUrl(c) == RepoUrl(d) {
        assert FileName(c) == FileName(d);
      }
    }
  }

  /** With dot-free packaging, paths tell all coordinates apart. */
  lemma RepoUrlInjective(c: Coordinates, d: Coordinates)
    requires SlashFree(c) && SlashFree(d) && FreeOf(c.packaging, {'.'}) && FreeOf(d.packaging, {'.'})
    ensures RepoUrl(c) == RepoUrl(d) <==> c == d
  {
    RepoUrlExact(c, d);
    var (p, q) := (c.classifier, d.classifier);
    if p + "." + c.packaging == q + "." + d.packaging {
      assert p + ['.'] + c.packaging == q + ['.'] + d.packaging;
      CutAtLast(p, c.packaging, q, d.packaging, '.');
    }
  }

  /** Some dot can move: one of the classifier, not at its start, or of the packaging, not at its end. */
  predicate HasDotToMove(c: Coordinates)
    requires c.packaging != ""
  {
    c.classifier != "" && ('.' in c.classifier[1..] || '.' in c.packaging[..|c.packaging| - 1])
  }

  /** Other coordinates with the same path exist exactly when there is a classifier and a dot to move;
      the constructor never leaves the packaging empty. */
  lemma CollidesExactly(c: Coordinates)
    requires SlashFree(c) && c.packaging != ""
    ensures (exists d :: SlashFree(d) && d.packaging != "" && d != c && RepoUrl(d) == RepoUrl(c)) <==> HasDotToMove(c)
  {
    if d :| SlashFree(d) && d.packaging != "" && d != c && RepoUrl(d) == RepoUrl(c) {
      RepoUrlExact(d, c);
      DotToMove(c, d);
    }
    if c.classifier != "" && '.' in c.packaging[..|c.packaging| - 1] {
      var k :| 0 <= k < |c.packaging| - 1 && c.packaging[k] == '.';
      MoveDotLeft(c, k);
    } else if c.classifier != "" && '.' in c.classifier[1..] {
      var k :| 0 <= k < |c.classifier| - 1 && c.classifier[1..][k] == '.';
      MoveDotRight(c, k + 1);
    }
  }

  lemma DotToMove(c: Coordinates, d: Coordinates)
    requires c.classifier != "" && d.classifier != "" && c.packaging != "" && d.packaging != ""
    requires c.classifier + "." + c.packaging == d.classifier + "." + d.packaging
    ensures (c.classifier == d.classifier && c.packaging == d.packaging) || HasDotToMove(c)
  {
    var (m, n) := (|c.classifier|, |d.classifier|);
    var text := c.classifier + "." + c.packaging;
    assert text[n] == '.' && text[..m] == c.classifier && text[m + 1..] == c.packaging;
    assert text[..n] == d.classifier && text[n + 1..] == d.packaging;
    if n < m {
      assert c.classifier[1..][n - 1] == '.';
    } else if n > m {
      assert c.packaging[..|c.packaging| - 1][n - m - 1] == '.';
    }
  }

  /** Wherever a dotted part stands behind a non-empty classifier, the path does not tell to which of
      classifier and packaging it belongs: `bin.tar` and `gz` against `bin` and `tar.gz`. */
  lemma DottedPackagingCollides(c: Coordinates, part: string)
    requires c.classifier != ""
    ensures var d := c.(classifier := c.classifier + "." + part);
            var e := c.(packaging := part + "." + c.packaging);
            d != e && RepoUrl(d) == RepoUrl(e)
  {
    var d := c.(classifier := c.classifier + "." + part);
    var e := c.(packaging := part + "." + c.packaging);
    assert |d.classifier| != |e.classifier|;
    var front := c.artifactId + "-" + c.version + "-" + c.classifier;
    assert FileName(d) == front + "." + part + "." + c.packaging;
    assert FileName(e) == front + "." + part + "." + c.packaging;
  }

  lemma MoveDotLeft(c: Coordinates, k: nat)
    requires SlashFree(c) && c.classifier != "" && k < |c.packaging| && c.packaging[k] == '.'
    ensures var d := c.(classifier := c.classifier + "." + c.packaging[..k], packaging := c.packaging[k + 1..]);
            SlashFree(d) && d != c && RepoUrl(d) == RepoUrl(c)
  {
    CutAround(c.packaging, k);
    assert c.packaging == c.packaging[..k] + "." + c.packaging[k + 1..];
    DottedPackagingCollides(c.(packaging := c.packaging[k + 1..]), c.packaging[..k]);
  }

  lemma MoveDotRight(c: Coordinates, k: nat)
    requires SlashFree(c) && 0 < k < |c.classifier| && c.classifier[k] == '.'
    ensures var d := c.(classifier := c.classifier[..k], packaging := c.classifier[k + 1..] + "." + c.packaging);
            SlashFree(d) && d != c && RepoUrl(d) == RepoUrl(c)
  {
    CutAround(c.classifier, k);
    assert c.classifier == c.classifier[..k] + "." + c.classifier[k + 1..];
    DottedPackagingCollides(c.(classifier := c.classifier[..k]), c.classifier[k + 1..]);
  }

  // ----- source jars -----

  const SOURCES_CLASSIFIERS: seq<string> := ["sources", "src"]

  /** The artifact text requested in each round of _download_source_jar. */
  function Request(name: Coordinates, k: nat): string
    requires k < |SOURCES_CLASSIFIERS|
  {
    CoordText(name.(packaging := DEFAULT_PACKAGING, classifier := SOURCES_CLASSIFIERS[k]), true)
  }

  /** `fetch` answers a requested artifact text with a path, or fails. Nothing is fetched when the
      coordinates already name a source archive; the second classifier is tried only when the first
      fails, and its failure is raised. */
  method DownloadSourceJar(name: string, fetch: string -> Option<string>) returns (r: Result<Option<string>>)
    ensures FromStr(name).Err? ==> r == Err(ValueError)
    ensures FromStr(name).Ok? ==>
              var c := FromStr(name).value;
              if c.classifier in {"sources", "src"} then r == Ok(None)
              else if fetch(Request(c, 0)).Some? then r == Ok(fetch(Request(c, 0)))
              else if fetch(Request(c, 1)).Some? then r == Ok(fetch(Request(c, 1)))
              else r == Err(FetchFailed)
  {
    var parsed := FromStr(name);
    if parsed.Err? {
      return Err(ValueError);
    }
    var coords := parsed.value;
    coords := coords.(packaging := DEFAULT_PACKAGING);
    if coords.classifier in SOURCES_CLASSIFIERS {
      return Ok(None);
    }
    for k := 0 to |SOURCES_CLASSIFIERS|
      invariant coords.(classifier := "") == parsed.value.(packaging := DEFAULT_PACKAGING, classifier := "")
      invariant forall j | 0 <= j < k :: fetch(Request(parsed.value, j)).None?
    {
      coords := coords.(classifier := SOURCES_CLASSIFIERS[k]);
      var artifact := ToStr(coords, true);
      assert artifact == Request(parsed.value, k);
      var path := fetch(artifact);
      if path.Some? {
        return Ok(path);
      }
    }
    r := Err(FetchFailed);
  }

  /** What the receiver of a request reads back: the same artifact as a jar of sources, no version. */
  lemma RequestReadBack(name: string, k: nat)
    requires FromStr(name).Ok? && k < |SOURCES_CLASSIFIERS|
    ensures FromStr(Request(FromStr(name).value, k)) ==
            Ok(FromStr(name).value.(packaging := "jar", classifier := if k == 0 then "sources" else "src", version := ""))
  {
    ParsedColonFree(name);
    RoundTrip(FromStr(name).value.(packaging := DEFAULT_PACKAGING, classifier := SOURCES_CLASSIFIERS[k]), true);
  }
}
