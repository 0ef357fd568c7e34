// NpmDependencyParser (f8a_worker/solver.py): reading comparators and range
// texts, as printed by semver-ranger.
module Npm {
  import opened Common
  import opened Text
  import opened Versions
  import opened Dependencies

  // ----- the code -----

  /** The first operator, in the order of Tokens.operators, that occurs anywhere in the text. */
  function ReadWith(operators: seq<Op>, text: string): Spec {
    if operators == [] then Single(text)
    else
      var token := OpText(operators[0]);
      if Contains(text, token) then Pair(operators[0], SplitOn(text, token)[1])
      else ReadWith(operators[1..], text)
  }

  /** _parse_npm_tokens. */
  function ParseTokens(text: string): Spec {
    ReadWith(OPERATORS, text)
  }

  function ReadClause(text: string): Result<Spec> {
    if Contains(text, " ") then
      var spaced := SplitOn(text, " ");
      if |spaced| != 2 then Err(AssertionError)
      else Ok(Conj([ParseTokens(spaced[0]), ParseTokens(spaced[1])]))
    else if text == "*" then Ok(Pair(GTE, "0.0.0"))
    else Ok(ParseTokens(text))
  }

  /** `ret` with further entries, unless reading these failed. */
  function Extend(ret: seq<Spec>, rest: Result<seq<Spec>>): Result<seq<Spec>> {
    match rest
    case Err(e) => Err(e)
    case Ok(more) => Ok(ret + more)
  }

  function ReadClauses(texts: seq<string>): Result<seq<Spec>> {
    if texts == [] then Ok([])
    else
      match ReadClause(texts[0])
      case Err(e) => Err(e)
      case Ok(s) => Extend([s], ReadClauses(texts[1..]))
  }

  /** _parse_npm; `ranger` maps a range to the text semver-ranger prints for it. None stands for an
      invalid range. */
  function ReadRange(name: string, spec: string, ranger: string -> string): Result<Option<Dependency>> {
    var text := if spec == "latest" then "*" else ranger(spec);
    if spec != "latest" && text == "null" then Ok(None)
    else
      match ReadClauses(SplitOn(text, "||"))
      case Err(e) => Err(e)
      case Ok(specs) => Ok(Some(Dependency(name, specs)))
  }

  method ParseNpm(name: string, spec: string, ranger: string -> string) returns (r: Result<Option<Dependency>>)
    ensures r == ReadRange(name, spec, ranger)
  {
    var specs := "*";
    if spec != "latest" {
      specs := ranger(spec);
      if specs == "null" {
        return Ok(None);
      }
    }
    var ret: seq<Spec> := [];
    var texts := SplitOn(specs, "||");
    for k := 0 to |texts|
      invariant ReadClauses(texts[..k]) == Ok(ret)
    {
      var s := texts[k];
      ReadClausesSnoc(texts, k, ret);
      if Contains(s, " ") {
        var spaced := SplitOn(s, " ");
        if |spaced| != 2 {
          return Err(AssertionError);
        }
        ret := ret + [Conj([ParseTokens(spaced[0]), ParseTokens(spaced[1])])];
      } else if s == "*" {
        ret := ret + [Pair(GTE, "0.0.0")];
      } else {
        ret := ret + [ParseTokens(s)];
      }
    }
    assert texts[..|texts|] == texts;
    r := Ok(Some(Dependency(name, ret)));
  }

  lemma ReadOne(text: string, rest: seq<string>)
    ensures match ReadClause(text)
            case Err(e) => ReadClauses([text] + rest) == Err(e)
            case Ok(s) => ReadClauses([text]) == Ok([s])
  {
    assert ([text] + rest)[1..] == rest && [text][1..] == [];
    assert ReadClauses([]) == Ok([]);
    var head := ReadClause(text);
    assert head.Ok? ==> [head.value] + [] == [head.value];
  }

  lemma ReadClausesSnoc(texts: seq<string>, k: nat, ret: seq<Spec>)
    requires k < |texts| && ReadClauses(texts[..k]) == Ok(ret)
    ensures match ReadClause(texts[k])
            case Err(e) => ReadClauses(texts) == Err(e)
            case Ok(s) => ReadClauses(texts[..k + 1]) == Ok(ret + [s])
  {
    ReadOne(texts[k], texts[k + 1..]);
    TakeNext(texts, k);
    CutAround(texts, k);
    ReadClausesConcat(texts[..k], [texts[k]]);
    ReadClausesConcat(texts[..k], [texts[k]] + texts[k + 1..]);
  }

  lemma ExtendTwice(a: seq<Spec>, b: seq<Spec>, rest: Result<seq<Spec>>)
    ensures Extend(a + b, rest) == Extend(a, Extend(b, rest)) && Extend([], rest) == rest
  {
    if rest.Ok? {
      assert (a + b) + rest.value == a + (b + rest.value) && [] + rest.value == rest.value;
    }
  }

  lemma {:induction false} ReadClausesConcat(a: seq<string>, b: seq<string>)
    ensures ReadClauses(a).Ok? ==> ReadClauses(a + b) == Extend(ReadClauses(a).value, ReadClauses(b))
  {
    if a == [] {
      assert a + b == b;
      ExtendTwice([], [], ReadClauses(b));
    } else if ReadClauses(a).Ok? {
      var all := a + b;
      assert all[0] == a[0] && all[1..] == a[1..] + b;
      ReadClausesConcat(a[1..], b);
      ExtendTwice([ReadClause(a[0]).value], ReadClauses(a[1..]).value, ReadClauses(b));
    }
  }

  // ----- the grammar of range texts -----

  datatype Comparator = Cmp(op: Op, version: string) | Bare(version: string)

  datatype Clause = Star | One(c: Comparator) | Two(left: Comparator, right: Comparator)

  function ComparatorText(c: Comparator): string {
    match c
    case Cmp(op, version) => OpText(op) + version
    case Bare(version) => version
  }

  function ClauseText(clause: Clause): string {
    match clause
    case Star => "*"
    case One(c) => ComparatorText(c)
    case Two(left, right) => ComparatorText(left) + " " + ComparatorText(right)
  }

  function ClauseTexts(clauses: seq<Clause>): seq<string> {
    seq(|clauses|, i requires 0 <= i < |clauses| => ClauseText(clauses[i]))
  }

  function RangeText(clauses: seq<Clause>): string {
    Join(ClauseTexts(clauses), "||")
  }

  /** A version without operator characters. */
  predicate PlainVersion(version: string) {
    FreeOf(version, {'<', '>', '=', ' ', '|'})
  }

  predicate Readable(c: Comparator) {
    PlainVersion(c.version) && (c.Cmp? ==> c.op != NEQ)
  }

  predicate ReadableClause(clause: Clause) {
    match clause
    case Star => true
    case One(c) => Readable(c) && ComparatorText(c) != "*"
    case Two(left, right) => Readable(left) && Readable(right)
  }

  predicate Satisfies(version: string, c: Comparator) {
    match c
    case Cmp(op, bound) => Holds(op, Compare(version, bound))
    case Bare(bound) => Compare(version, bound) == 0
  }

  predicate SatisfiesClause(version: string, clause: Clause) {
    match clause
    case Star => Order(Parse(version), []) >= 0
    case One(c) => Satisfies(version, c)
    case Two(left, right) => Satisfies(version, left) && Satisfies(version, right)
  }

  // ----- proofs -----

  lemma OperatorFound(op: Op, version: string)
    requires PlainVersion(version)
    ensures Contains(OpText(op) + version, OpText(op)) && SplitOn(OpText(op) + version, OpText(op)) == ["", version]
  {
    var token := OpText(op);
    assert token[0] in {'<', '>', '=', '!'};
    assert "" + token + version == token + version;
    SplitAfterPiece("", token, version);
    assert '=' in token || token == ">" || token == "<";
    LacksCharacter(version, token, token[|token| - 1]);
    assert SplitOn(version, token) == [version] by {
      SplitWithout(version, token);
    }
  }

  lemma {:induction false} SplitWithout(s: string, sep: string)
    requires sep != "" && !Contains(s, sep)
    ensures SplitOn(s, sep) == [s]
  {
    if |s| >= |sep| {
      SplitWithout(s[1..], sep);
      assert [s[0]] + s[1..] == s;
    }
  }

  lemma NoDoubleEquals(prefix: string, version: string)
    requires prefix in {"=", "!="} && PlainVersion(version)
    ensures !Contains(prefix + version, "==")
  {
    LacksCharacter(version, "==", '=');
    var text := "=" + version;
    assert text[1..] == version;
    assert version != "" ==> text[1] == version[0];
    assert !("==" <= text);
    if prefix == "!=" {
      assert (prefix + version)[0] == '!' && (prefix + version)[1..] == text;
    } else {
      assert prefix + version == text;
    }
  }

  /** Every operator but `!=` is read back, and so is a bare version. */
  lemma ReadBack(c: Comparator)
    requires Readable(c)
    ensures ParseTokens(ComparatorText(c)) == if c.Cmp? then Pair(c.op, c.version) else Single(c.version)
  {
    var text := ComparatorText(c);
    if c.Cmp? {
      OperatorFound(c.op, c.version);
    }
    if c.Bare? || c.op !in {GTE, GT} {
      assert FreeOf(text, {'>'});
      LacksCharacter(text, ">=", '>');
      LacksCharacter(text, ">", '>');
    }
    if c.Bare? || c.op !in {LTE, LT} {
      assert FreeOf(text, {'<'});
      LacksCharacter(text, "<=", '<');
      LacksCharacter(text, "<", '<');
    }
    if c.Bare? || c.op in {GT, LT} {
      assert FreeOf(text, {'='});
      LacksCharacter(text, ">=", '=');
      LacksCharacter(text, "<=", '=');
      LacksCharacter(text, "==", '=');
      LacksCharacter(text, "=", '=');
      LacksCharacter(text, "!=", '=');
    }
    if c.Cmp? && c.op == EQ2 {
      NoDoubleEquals("=", c.version);
    }
    ScanOperators(text);
  }

  /** The cascade spelled out. */
  lemma ScanOperators(text: string)
    ensures ParseTokens(text) ==
            if Contains(text, ">=") then Pair(GTE, SplitOn(text, ">=")[1])
            else if Contains(text, "<=") then Pair(LTE, SplitOn(text, "<=")[1])
            else if Contains(text, "==") then Pair(EQ1, SplitOn(text, "==")[1])
            else if Contains(text, ">") then Pair(GT, SplitOn(text, ">")[1])
            else if Contains(text, "<") then Pair(LT, SplitOn(text, "<")[1])
            else if Contains(text, "=") then Pair(EQ2, SplitOn(text, "=")[1])
            else if Contains(text, "!=") then Pair(NEQ, SplitOn(text, "!=")[1])
            else Single(text)
  {
    var o := OPERATORS;
    assert o[1..][0] == LTE && o[2..][0] == EQ1 && o[3..][0] == GT && o[4..][0] == LT && o[5..][0] == EQ2 && o[6..][0] == NEQ;
    forall i | 0 <= i < 7 ensures o[i..][1..] == o[i + 1..] {
    }
    assert o[0..] == o && o[7..] == [];
    assert ReadWith(o[6..], text) == if Contains(text, "!=") then Pair(NEQ, SplitOn(text, "!=")[1]) else ReadWith(o[7..], text);
    assert ReadWith(o[5..], text) == if Contains(text, "=") then Pair(EQ2, SplitOn(text, "=")[1]) else ReadWith(o[6..], text);
    assert ReadWith(o[4..], text) == if Contains(text, "<") then Pair(LT, SplitOn(text, "<")[1]) else ReadWith(o[5..], text);
    assert ReadWith(o[3..], text) == if Contains(text, ">") then Pair(GT, SplitOn(text, ">")[1]) else ReadWith(o[4..], text);
    assert ReadWith(o[2..], text) == if Contains(text, "==") then Pair(EQ1, SplitOn(text, "==")[1]) else ReadWith(o[3..], text);
    assert ReadWith(o[1..], text) == if Contains(text, "<=") then Pair(LTE, SplitOn(text, "<=")[1]) else ReadWith(o[2..], text);
  }

  lemma ExclusionText(bound: string)
    requires PlainVersion(bound)
    ensures var text := "!=" + bound;
            && FreeOf(text, {'>'}) && FreeOf(text, {'<'}) && !Contains(text, "==")
            && Contains(text, "=") && SplitOn(text, "=") == ["!", bound]
  {
    var text := "!=" + bound;
    NoDoubleEquals("!=", bound);
    assert text == "!" + "=" + bound;
    SplitAfterPiece("!", "=", bound);
    SplitFree(bound, "=");
  }

  /** `!=v` is read as `=v`: `=` comes before `!=` in the operator list. The reading accepts exactly
      the one version class the text excludes. */
  lemma ExclusionMisread(bound: string, version: string)
    requires PlainVersion(bound)
    ensures ParseTokens("!=" + bound) == Pair(EQ2, bound)
    ensures Accepts(version, ParseTokens("!=" + bound)) <==> !Satisfies(version, Cmp(NEQ, bound))
  {
    var text := "!=" + bound;
    ExclusionText(bound);
    LacksCharacter(text, ">=", '>');
    LacksCharacter(text, ">", '>');
    LacksCharacter(text, "<=", '<');
    LacksCharacter(text, "<", '<');
    ScanOperators(text);
  }

  /** A comparator is read with its own meaning exactly when its operator is not `!=`. */
  lemma ReadingExact(c: Comparator)
    requires PlainVersion(c.version)
    ensures (forall v :: Accepts(v, ParseTokens(ComparatorText(c))) <==> Satisfies(v, c)) <==> (c.Cmp? ==> c.op != NEQ)
  {
    if c.Cmp? && c.op == NEQ {
      ExclusionMisread(c.version, c.version);
    } else {
      ReadBack(c);
    }
  }

  lemma ComparatorFree(c: Comparator)
    requires Readable(c)
    ensures FreeOf(ComparatorText(c), {' '}) && FreeOf(ComparatorText(c), {'|'})
  {
    var text := ComparatorText(c);
    if c.Cmp? {
      assert text == OpText(c.op) + c.version;
      assert FreeOf(OpText(c.op), {' '}) && FreeOf(OpText(c.op), {'|'});
    }
  }

  lemma ClauseFree(clause: Clause)
    requires ReadableClause(clause)
    ensures FreeOf(ClauseText(clause), {'|'})
  {
    match clause
    case Star =>
    case One(c) => ComparatorFree(c);
    case Two(left, right) =>
      ComparatorFree(left);
      ComparatorFree(right);
  }

  lemma ReadTwo(left: Comparator, right: Comparator, version: string)
    requires Readable(left) && Readable(right)
    ensures var r := ReadClause(ComparatorText(left) + " " + ComparatorText(right));
            r.Ok? && (Accepts(version, r.value) <==> Satisfies(version, left) && Satisfies(version, right))
  {
    var (a, b) := (ComparatorText(left), ComparatorText(right));
    ReadBack(left);
    ReadBack(right);
    ComparatorFree(left);
    ComparatorFree(right);
    SplitAfterPiece(a, " ", b);
    SplitFree(b, " ");
    var items := [ParseTokens(a), ParseTokens(b)];
    assert items[0] in items && items[1] in items;
    assert ReadClause(a + " " + b) == Ok(Conj(items));
    assert forall i | i in items :: i == items[0] || i == items[1];
  }

  lemma ReadClauseMeaning(clause: Clause, version: string)
    requires ReadableClause(clause)
    ensures var r := ReadClause(ClauseText(clause));
            r.Ok? && (Accepts(version, r.value) <==> SatisfiesClause(version, clause))
  {
    match clause
    case Star =>
      SplitFree("*", " ");
      ZeroVersion(version);
    case One(c) =>
      ReadBack(c);
      ComparatorFree(c);
      SplitFree(ComparatorText(c), " ");
    case Two(left, right) =>
      ReadTwo(left, right, version);
  }

  lemma ReadCons(clauses: seq<Clause>)
    requires clauses != []
    ensures var (text, rest) := (ClauseText(clauses[0]), ReadClauses(ClauseTexts(clauses[1..])));
            ReadClause(text).Ok? && rest.Ok? ==> ReadClauses(ClauseTexts(clauses)) == Ok([ReadClause(text).value] + rest.value)
  {
    assert ClauseTexts(clauses)[1..] == ClauseTexts(clauses[1..]);
  }

  lemma {:induction false} ReadClausesMeaning(clauses: seq<Clause>, version: string)
    requires forall c | c in clauses :: ReadableClause(c)
    ensures var r := ReadClauses(ClauseTexts(clauses));
            r.Ok? && ((exists s :: s in r.value && Accepts(version, s)) <==> exists c :: c in clauses && SatisfiesClause(version, c))
  {
    if clauses != [] {
      var (c, rest) := (clauses[0], clauses[1..]);
      assert c in clauses && clauses == [c] + rest;
      ReadClauseMeaning(c, version);
      ReadClausesMeaning(rest, version);
      ReadCons(clauses);
    }
  }

  /** Reading a range text yields a dependency whose check is the or-of-ands meaning of the text. */
  lemma RangeMeaning(name: string, spec: string, ranger: string -> string, clauses: seq<Clause>, version: string)
    requires clauses != [] && forall c | c in clauses :: ReadableClause(c)
    requires if spec == "latest" then clauses == [Star] else ranger(spec) == RangeText(clauses) != "null"
    ensures var r := ReadRange(name, spec, ranger);
            && r.Ok? && r.value.Some? && r.value.value.name == name
            && (Check(version, r.value.value) <==> exists c :: c in clauses && SatisfiesClause(version, c))
  {
    var texts := ClauseTexts(clauses);
    forall t | t in texts ensures FreeOf(t, {'|'}) {
      var i :| 0 <= i < |texts| && texts[i] == t;
      assert clauses[i] in clauses;
      ClauseFree(clauses[i]);
    }
    SplitJoin(texts, "||");
    ReadClausesMeaning(clauses, version);
  }

  /** The six operators as they are written. */
  lemma WrittenOperators(v: string)
    requires PlainVersion(v)
    ensures ParseTokens(">=" + v) == Pair(GTE, v) && ParseTokens(">" + v) == Pair(GT, v)
    ensures ParseTokens("<=" + v) == Pair(LTE, v) && ParseTokens("<" + v) == Pair(LT, v)
    ensures ParseTokens("==" + v) == Pair(EQ1, v) && ParseTokens("=" + v) == Pair(EQ2, v)
    ensures ParseTokens(v) == Single(v)
  {
    forall op | op != NEQ ensures ParseTokens(OpText(op) + v) == Pair(op, v) {
      ReadBack(Cmp(op, v));
    }
    ReadBack(Bare(v));
    assert OpText(GTE) == ">=" && OpText(GT) == ">" && OpText(LTE) == "<=" && OpText(LT) == "<";
    assert OpText(EQ1) == "==" && OpText(EQ2) == "=";
  }

  lemma {:induction false} ClausesFail(texts: seq<string>)
    ensures ReadClauses(texts).Err? <==> exists t :: t in texts && Count(t, ' ') > 1
    ensures ReadClauses(texts).Err? ==> ReadClauses(texts).error == AssertionError
  {
    if texts != [] {
      var (t, rest) := (texts[0], texts[1..]);
      assert texts == [t] + rest && t in texts;
      SplitPieces(t, ' ');
      ClausesFail(rest);
    }
  }

  /** A range is invalid exactly when semver-ranger prints null for it, and raises exactly when a clause of
      the printed text holds two blanks. */
  lemma ReadOutcomes(name: string, spec: string, ranger: string -> string)
    ensures var r := ReadRange(name, spec, ranger);
            && (r == Ok(None) <==> spec != "latest" && ranger(spec) == "null")
            && (r.Err? <==> spec != "latest" && exists t :: t in SplitOn(ranger(spec), "||") && Count(t, ' ') > 1)
            && (r.Err? ==> r.error == AssertionError)
  {
    var text := if spec == "latest" then "*" else ranger(spec);
    ClausesFail(SplitOn(text, "||"));
    if spec == "latest" {
      SplitFree("*", "||");
      assert Count("*", ' ') == 0;
    } else if text == "null" {
      SplitFree("null", "||");
      NoneCounted("null", ' ');
    }
  }

  lemma {:induction false} NoneCounted(s: string, c: char)
    requires FreeOf(s, {c})
    ensures Count(s, c) == 0
  {
    if s != "" {
      NoneCounted(s[1..], c);
    }
  }

  /** `*` and `latest` accept every all-numeric version. */
  lemma StarAcceptsNumeric(version: string)
    requires AllNumeric(version)
    ensures SatisfiesClause(version, Star)
  {
    NonNegativeOrder(Parse(version));
  }
}
