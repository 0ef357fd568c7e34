// NugetDependencyParser.parse (f8a_worker/solver.py): an ordered cascade of
// regular expressions over interval texts.
module Nuget {
  import opened Common
  import opened Text
  import opened Versions
  import opened Dependencies

  // ----- the regular expressions -----

  /** What stands between `open` and `close` when they start and end the text. */
  function Between(text: string, open: string, close: string): Option<string> {
    if |open| + |close| <= |text| && text[..|open|] == open && text[|text| - |close|..] == close
    then Some(text[|open|..|text| - |close|])
    else None
  }

  /** `(.+)` on the whole of `body`; the dot does not match a line break. */
  function OneGroup(body: Option<string>): Option<string> {
    if body.Some? && body.value != "" && FreeOf(body.value, {'\n'}) then body else None
  }

  /** The last comma at or before `p` that leaves a first group. */
  function LastComma(body: string, p: int): Option<nat>
    requires p < |body|
    decreases p
  {
    if p <= 0 then None
    else if body[p] == ',' then Some(p)
    else LastComma(body, p - 1)
  }

  /** `(.+),(.+)` on the whole of `body`; the first group is greedy. */
  function TwoGroups(body: Option<string>): Option<(string, string)> {
    if body.Some? && |body.value| >= 2 && FreeOf(body.value, {'\n'}) then
      match LastComma(body.value, |body.value| - 2)
      case None => None
      case Some(p) => if p < |body.value| then Some((body.value[..p], body.value[p + 1..])) else None
    else None
  }

  // ----- the cascade -----

  // Stale: no branch assigns `dep`, so the value of the previous round is appended again.
  datatype Reading = Fresh(spec: seq<Spec>) | Stale | Invalid

  function Cascade(range: string): Reading {
    if FreeOf(range, {',', '(', ')', '[', ']'}) then Fresh([Pair(GTE, range)])
    else match TwoGroups(Between(range, "[", "]")) case Some((a, b)) => Fresh([Conj([Pair(GTE, a), Pair(LTE, b)])]) case None =>
         match TwoGroups(Between(range, "(", ")")) case Some((a, b)) => Fresh([Conj([Pair(GT, a), Pair(LT, b)])]) case None =>
         match OneGroup(Between(range, "[", ", )")) case Some(a) => Fresh([Pair(GTE, a)]) case None =>
         match TwoGroups(Between(range, "[", ")")) case Some((a, b)) => Fresh([Conj([Pair(GTE, a), Pair(LT, b)])]) case None =>
         match OneGroup(Between(range, "(", ",)")) case Some(a) => Fresh([Pair(GT, a)]) case None =>
         match OneGroup(Between(range, "[", "]")) case Some(a) => Fresh([Pair(EQ1, a)]) case None =>
         match OneGroup(Between(range, "(,", "]")) case Some(b) => Fresh([Pair(LTE, b)]) case None =>
         match OneGroup(Between(range, "(,", ")")) case Some(b) => Fresh([Pair(LT, b)]) case None =>
         match OneGroup(Between(range, "(", ")")) case Some(_) => Invalid case None =>
         Stale
  }

  /** The readings of a list of texts; `dep` is what the previous round left. */
  function ReadAll(specs: seq<string>, dep: Option<Dependency>): Result<seq<Dependency>> {
    if specs == [] then Ok([])
    else
      match SplitOnce(specs[0], ' ')
      case None => Err(ValueError)
      case Some((name, range)) =>
        match Cascade(range)
        case Invalid => Err(ValueError)
        case Stale =>
          if dep.None? then Err(UnboundLocalError) else Prepend(dep.value, ReadAll(specs[1..], dep))
        case Fresh(spec) =>
          var d := Dependency(name, spec);
          Prepend(d, ReadAll(specs[1..], Some(d)))
  }

  function Prepend(d: Dependency, rest: Result<seq<Dependency>>): Result<seq<Dependency>> {
    match rest
    case Err(e) => Err(e)
    case Ok(ds) => Ok([d] + ds)
  }

  function Append(ds: seq<Dependency>, rest: Result<seq<Dependency>>): Result<seq<Dependency>> {
    match rest
    case Err(e) => Err(e)
    case Ok(more) => Ok(ds + more)
  }

  lemma AppendStep(ds: seq<Dependency>, d: Dependency, rest: Result<seq<Dependency>>)
    ensures Append(ds, Prepend(d, rest)) == Append(ds + [d], rest)
  {
    if rest.Ok? {
      assert ds + ([d] + rest.value) == (ds + [d]) + rest.value;
    }
  }

  method Parse(specs: seq<string>) returns (r: Result<seq<Dependency>>)
    ensures r == ReadAll(specs, None)
  {
    var deps: seq<Dependency> := [];
    var dep: Option<Dependency> := None;
    assert specs[0..] == specs && (ReadAll(specs, None).Ok? ==> [] + ReadAll(specs, None).value == ReadAll(specs, None).value);
    for k := 0 to |specs|
      invariant Append(deps, ReadAll(specs[k..], dep)) == ReadAll(specs, None)
    {
      assert specs[k..][1..] == specs[k + 1..];
      ghost var before := dep;
      match SplitOnce(specs[k], ' ') {
        case None => return Err(ValueError);
        case Some(parts) =>
          match Cascade(parts.1) {
            case Invalid => return Err(ValueError);
            case Stale =>
              if dep.None? {
                return Err(UnboundLocalError);
              }
            case Fresh(spec) => dep := Some(Dependency(parts.0, spec));
          }
      }
      assert ReadAll(specs[k..], before) == Prepend(dep.value, ReadAll(specs[k + 1..], dep));
      AppendStep(deps, dep.value, ReadAll(specs[k + 1..], dep));
      deps := deps + [dep.value];
    }
    assert specs[|specs|..] == [] && deps + [] == deps;
    r := Ok(deps);
  }

  // ----- intervals -----

  /** The bracket notation: what stands before and behind the comma. A blank end is unbounded. */
  datatype Interval = Interval(closedLow: bool, low: string, high: string, closedHigh: bool)

  predicate Plain(text: string) {
    FreeOf(text, {',', '(', ')', '[', ']', '\n'})
  }

  predicate WellFormed(i: Interval) {
    Plain(i.low) && Plain(i.high)
  }

  predicate Blank(text: string) {
    Strip(text) == ""
  }

  function Body(i: Interval): string {
    i.low + "," + i.high
  }

  function IntervalText(i: Interval): string {
    (if i.closedLow then "[" else "(") + Body(i) + (if i.closedHigh then "]" else ")")
  }

  /** What the notation means: blanks around an end do not matter, a blank end is no bound. */
  predicate Inside(version: string, i: Interval) {
    && (!Blank(i.low) ==> Above(version, Strip(i.low), i.closedLow))
    && (!Blank(i.high) ==> Above(Strip(i.high), version, i.closedHigh))
  }

  predicate Above(version: string, bound: string, closed: bool) {
    Compare(version, bound) > 0 || (closed && Compare(version, bound) == 0)
  }

  /** The notations the cascade reads as they are meant. */
  predicate Recognised(i: Interval) {
    if !Blank(i.low) && !Blank(i.high) then i.closedLow || !i.closedHigh
    else if !Blank(i.low) then !i.closedHigh && i.high == (if i.closedLow then " " else "")
    else !Blank(i.high) && i.low == "" && !i.closedLow
  }

  // ----- proofs -----

  lemma BetweenOf(open: string, body: string, close: string)
    ensures Between(open + body + close, open, close) == Some(body)
  {
    var text := open + body + close;
    assert text[..|open|] == open && text[|text| - |close|..] == close && text[|open|..|text| - |close|] == body;
  }

  lemma {:induction false} LastCommaAt(a: string, b: string, p: int)
    requires a != "" && Plain(b) && |a| <= p < |a| + |b|
    ensures LastComma(a + "," + b, p) == Some(|a|)
    decreases p
  {
    var body := a + "," + b;
    if p > |a| {
      assert body[p] == b[p - |a| - 1];
      LastCommaAt(a, b, p - 1);
    }
  }

  lemma {:induction false} NoInnerComma(body: string, p: int)
    requires p < |body| && forall k | 0 < k <= p :: body[k] != ','
    ensures LastComma(body, p) == None
    decreases p
  {
    if p > 0 {
      NoInnerComma(body, p - 1);
    }
  }

  lemma OneEndOnly(a: string, b: string)
    requires Plain(a) && Plain(b) && (a == "" || b == "")
    ensures TwoGroups(Some(a + "," + b)) == None
  {
    var body := a + "," + b;
    if |body| >= 2 {
      assert forall k | 0 < k <= |body| - 2 :: body[k] == if a != "" then a[k] else b[k - 1];
      NoInnerComma(body, |body| - 2);
    }
  }

  lemma TwoEnds(a: string, b: string)
    requires Plain(a) && Plain(b) && a != "" && b != ""
    ensures TwoGroups(Some(a + "," + b)) == Some((a, b))
  {
    var body := a + "," + b;
    LastCommaAt(a, b, |body| - 2);
    assert body[..|a|] == a && body[|a| + 1..] == b;
    assert FreeOf(body, {'\n'});
  }

  /** Two groups are found in the body exactly when both ends have text. */
  lemma BodyGroups(i: Interval)
    requires WellFormed(i)
    ensures TwoGroups(Some(Body(i))) == if i.low != "" && i.high != "" then Some((i.low, i.high)) else None
    ensures OneGroup(Some(Body(i))) == Some(Body(i))
  {
    assert FreeOf(Body(i), {'\n'});
    if i.low != "" && i.high != "" {
      TwoEnds(i.low, i.high);
    } else {
      OneEndOnly(i.low, i.high);
    }
  }

  /** What each bracket pattern finds between its delimiters. */
  lemma BracketMatches(i: Interval)
    requires WellFormed(i)
    ensures var text := IntervalText(i);
            && (Between(text, "[", "]") == if i.closedLow && i.closedHigh then Some(Body(i)) else None)
            && (Between(text, "(", ")") == if !i.closedLow && !i.closedHigh then Some(Body(i)) else None)
            && (Between(text, "[", ")") == if i.closedLow && !i.closedHigh then Some(Body(i)) else None)
  {
    var text := IntervalText(i);
    BetweenOf(if i.closedLow then "[" else "(", Body(i), if i.closedHigh then "]" else ")");
    assert text[..1] == if i.closedLow then "[" else "(";
    assert text[|text| - 1..] == if i.closedHigh then "]" else ")";
  }

  /** First, second, last and last but one character of a notation. */
  lemma EdgeCharacters(i: Interval)
    requires WellFormed(i)
    ensures var (text, n) := (IntervalText(i), |IntervalText(i)|);
            && n >= 3 && text[0] == (if i.closedLow then '[' else '(') && text[n - 1] == (if i.closedHigh then ']' else ')')
            && text[1] == (if i.low != "" then i.low[0] else ',')
            && text[n - 2] == (if i.high != "" then i.high[|i.high| - 1] else ',')
  {
  }

  lemma BlankEnd(i: Interval)
    requires WellFormed(i)
    ensures OneGroup(Between(IntervalText(i), "[", ", )")) ==
            if i.closedLow && !i.closedHigh && i.high == " " && i.low != "" then Some(i.low) else None
  {
    var text := IntervalText(i);
    var n := |text|;
    EdgeCharacters(i);
    assert text[n - 3..] == [text[n - 3], text[n - 2], text[n - 1]] && text[..1] == [text[0]];
    if i.closedLow && !i.closedHigh && i.high == " " {
      assert text == "[" + i.low + ", )";
      BetweenOf("[", i.low, ", )");
    } else if |i.high| >= 2 {
      assert text[n - 3] == i.high[|i.high| - 2];
    }
  }

  lemma CommaEnd(i: Interval)
    requires WellFormed(i)
    ensures OneGroup(Between(IntervalText(i), "(", ",)")) ==
            if !i.closedLow && !i.closedHigh && i.high == "" && i.low != "" then Some(i.low) else None
  {
    var text := IntervalText(i);
    var n := |text|;
    EdgeCharacters(i);
    if !i.closedLow && !i.closedHigh && i.high == "" {
      assert text == "(" + i.low + ",)";
      BetweenOf("(", i.low, ",)");
    } else {
      assert text[n - 2..] == [text[n - 2], text[n - 1]] && text[..1] == [text[0]];
    }
  }

  lemma LeadingComma(i: Interval, close: string)
    requires WellFormed(i) && close in {"]", ")"}
    ensures OneGroup(Between(IntervalText(i), "(,", close)) ==
            if !i.closedLow && i.closedHigh == (close == "]") && i.low == "" && i.high != "" then Some(i.high) else None
  {
    var text := IntervalText(i);
    var n := |text|;
    EdgeCharacters(i);
    if !i.closedLow && i.closedHigh == (close == "]") && i.low == "" {
      assert text == "(," + i.high + close;
      BetweenOf("(,", i.high, close);
    } else {
      assert text[..2] == [text[0], text[1]] && text[n - 1..] == [text[n - 1]];
    }
  }

  /** The whole table: the outcome of the cascade on every interval notation. */
  lemma CascadeTable(i: Interval)
    requires WellFormed(i)
    ensures Cascade(IntervalText(i)) ==
            if i.low != "" && i.high != "" then
              if !i.closedLow && i.closedHigh then Stale
              else if i.closedLow && !i.closedHigh && i.high == " " then Fresh([Pair(GTE, i.low)])
              else Fresh([Conj([Pair(LowerOp(i), i.low), Pair(UpperOp(i), i.high)])])
            else if i.closedLow then
              if i.closedHigh then Fresh([Pair(EQ1, Body(i))]) else Stale
            else if i.low != "" then
              if i.closedHigh then Stale else Fresh([Pair(GT, i.low)])
            else if i.high != "" then Fresh([Pair(UpperOp(i), i.high)])
            else if i.closedHigh then Stale else Invalid
  {
    BodyGroups(i);
    BracketMatches(i);
    BlankEnd(i);
    CommaEnd(i);
    LeadingComma(i, "]");
    LeadingComma(i, ")");
    assert IntervalText(i)[1 + |i.low|] == ',';
  }

  function LowerOp(i: Interval): Op {
    if i.closedLow then GTE else GT
  }

  function UpperOp(i: Interval): Op {
    if i.closedHigh then LTE else LT
  }

  /** Over the ends that have text, the comparators mean the interval. */
  lemma EndsMeaning(i: Interval, v: string)
    ensures Inside(v, i) <==>
            && (!Blank(i.low) ==> Accepts(v, Pair(LowerOp(i), i.low)))
            && (!Blank(i.high) ==> Accepts(v, Pair(UpperOp(i), i.high)))
  {
    BoundMeaning(v, i.low, i.closedLow);
    BoundMeaning(v, i.high, i.closedHigh);
  }

  lemma BoundMeaning(v: string, bound: string, closed: bool)
    ensures Above(v, Strip(bound), closed) <==> Accepts(v, Pair(if closed then GTE else GT, bound))
    ensures Above(Strip(bound), v, closed) <==> Accepts(v, Pair(if closed then LTE else LT, bound))
  {
    CompareStrip(v, bound);
    CompareTotalPreorder(v, bound, v);
    CompareTotalPreorder(v, Strip(bound), v);
  }

  lemma RecognisedMeaning(i: Interval, name: string, v: string)
    requires WellFormed(i) && Recognised(i)
    ensures var reading := Cascade(IntervalText(i));
            reading.Fresh? && (Check(v, Dependency(name, reading.spec)) <==> Inside(v, i))
  {
    assert Blank("") && Blank(" ");
    CascadeTable(i);
    EndsMeaning(i, v);
    SoleEntry(v, name, Cascade(IntervalText(i)).spec[0]);
    if !Blank(i.low) && !Blank(i.high) {
      BothAccept(v, Pair(LowerOp(i), i.low), Pair(UpperOp(i), i.high));
    }
  }

  /** The order has no ends: some version lies below any two, and some above. */
  lemma BeyondBoth(x: string, y: string)
    ensures exists w :: Compare(w, x) < 0 && Compare(w, y) < 0
    ensures exists w :: Compare(w, x) > 0 && Compare(w, y) > 0
  {
    var (low, high) := if AtMost(x, y) then (x, y) else (y, x);
    CompareTotalPreorder(x, y, x);
    Neighbours(low);
    Neighbours(high);
    CompareTotalPreorder(low + ".rc", low, high);
    CompareTotalPreorder(low, high, high + ".1");
    CompareTotalPreorder(high + ".1", low, low);
    CompareTotalPreorder(high + ".1", high, low);
  }

  function BothEnds(i: Interval): Spec {
    Conj([Pair(LowerOp(i), i.low), Pair(UpperOp(i), i.high)])
  }

  lemma BeyondEnds(i: Interval, v: string)
    ensures Compare(v, i.low) < 0 ==> !Accepts(v, Pair(LowerOp(i), i.low))
    ensures Compare(v, i.low) > 0 ==> Accepts(v, Pair(LowerOp(i), i.low))
    ensures Compare(v, i.high) < 0 ==> Accepts(v, Pair(UpperOp(i), i.high))
    ensures Compare(v, i.high) > 0 ==> !Accepts(v, Pair(UpperOp(i), i.high))
  {
    CompareTotalPreorder(v, i.low, v);
    CompareTotalPreorder(v, i.high, v);
  }

  /** A blank end that is read as a bound cuts off versions inside. */
  lemma BlankLow(i: Interval, s: Spec)
    requires Blank(i.low) && (s == BothEnds(i) || (s == Pair(LowerOp(i), i.low) && Blank(i.high)))
    ensures exists v :: Inside(v, i) && !Accepts(v, s)
  {
    BeyondBoth(i.low, i.high);
    var v :| Compare(v, i.low) < 0 && Compare(v, i.high) < 0;
    EndsMeaning(i, v);
    BeyondEnds(i, v);
    BothAccept(v, Pair(LowerOp(i), i.low), Pair(UpperOp(i), i.high));
    assert Inside(v, i) && !Accepts(v, s);
  }

  lemma BlankHigh(i: Interval, s: Spec)
    requires Blank(i.high) && (s == BothEnds(i) || (s == Pair(UpperOp(i), i.high) && Blank(i.low)))
    ensures exists v :: Inside(v, i) && !Accepts(v, s)
  {
    BeyondBoth(i.low, i.high);
    var v :| Compare(v, i.low) > 0 && Compare(v, i.high) > 0;
    EndsMeaning(i, v);
    BeyondEnds(i, v);
    BothAccept(v, Pair(LowerOp(i), i.low), Pair(UpperOp(i), i.high));
    assert Inside(v, i) && !Accepts(v, s);
  }

  lemma UnrecognisedFails(i: Interval, name: string)
    requires WellFormed(i) && !Recognised(i) && Cascade(IntervalText(i)).Fresh?
    ensures exists v :: !(Check(v, Dependency(name, Cascade(IntervalText(i)).spec)) <==> Inside(v, i))
  {
    assert Blank("") && Blank(" ");
    CascadeTable(i);
    var spec := Cascade(IntervalText(i)).spec;
    var s := spec[0];
    if s == Pair(EQ1, Body(i)) {
      MisreadAsEquality(i, Body(i));
    } else if Blank(i.low) && (s == BothEnds(i) || (Blank(i.high) && s == Pair(LowerOp(i), i.low))) {
      BlankLow(i, s);
    } else {
      BlankHigh(i, s);
    }
    var v :| !(Accepts(v, s) <==> Inside(v, i));
    SoleEntry(v, name, s);
  }

  /** An interval notation yields a new dependency that accepts exactly the versions inside the interval
      if and only if it is one of the recognised shapes. */
  lemma IntervalExact(i: Interval, name: string)
    requires WellFormed(i)
    ensures (Cascade(IntervalText(i)).Fresh? &&
             forall v :: Check(v, Dependency(name, Cascade(IntervalText(i)).spec)) <==> Inside(v, i))
            <==> Recognised(i)
  {
    if Recognised(i) {
      forall v ensures Cascade(IntervalText(i)).Fresh? &&
                       (Check(v, Dependency(name, Cascade(IntervalText(i)).spec)) <==> Inside(v, i)) {
        RecognisedMeaning(i, name, v);
      }
      RecognisedMeaning(i, name, "");
    } else if Cascade(IntervalText(i)).Fresh? {
      UnrecognisedFails(i, name);
    }
  }

  /** An interval without one of its ends holds two versions that differ. */
  lemma HoldsTwo(i: Interval)
    requires i.closedLow && i.closedHigh && (Blank(i.low) || Blank(i.high))
    ensures exists t, other :: Inside(t, i) && Inside(other, i) && Compare(t, other) != 0
  {
    var t := if Blank(i.low) then i.high else i.low;
    var other := if Blank(i.low) then t + ".rc" else t + ".1";
    Neighbours(t);
    CompareTotalPreorder(t, other, t);
    EndsMeaning(i, t);
    EndsMeaning(i, other);
    assert Inside(t, i) && Inside(other, i);
  }

  /** No equality accepts both. */
  lemma MisreadAsEquality(i: Interval, bound: string)
    requires i.closedLow && i.closedHigh && (Blank(i.low) || Blank(i.high))
    ensures exists v :: !(Accepts(v, Pair(EQ1, bound)) <==> Inside(v, i))
  {
    HoldsTwo(i);
    var t, other :| Inside(t, i) && Inside(other, i) && Compare(t, other) != 0;
    if Accepts(t, Pair(EQ1, bound)) && Accepts(other, Pair(EQ1, bound)) {
      EqualToBoth(t, other, bound);
    }
  }

  lemma EqualToBoth(t: string, other: string, bound: string)
    requires Accepts(t, Pair(EQ1, bound)) && Accepts(other, Pair(EQ1, bound))
    ensures Compare(t, other) == 0
  {
    CompareTotalPreorder(other, bound, t);
    CompareTotalPreorder(t, bound, other);
  }

  predicate Token(version: string) {
    version != "" && Plain(version)
  }

  /** The other recognised texts: a bare version, `[v]` and `[v, )`; `(v)` is refused. */
  lemma OtherForms(version: string)
    requires Token(version)
    ensures Cascade(version) == Fresh([Pair(GTE, version)])
    ensures Cascade("[" + version + "]") == Fresh([Pair(EQ1, version)])
    ensures Cascade("[" + version + ", )") == Fresh([Pair(GTE, version)])
    ensures Cascade("(" + version + ")") == Invalid
  {
    ExactForm(version);
    CascadeTable(Interval(true, version, " ", false));
    assert IntervalText(Interval(true, version, " ", false)) == "[" + version + ", )";
    ParenthesesForm(version);
  }

  lemma ExactForm(version: string)
    requires Token(version)
    ensures Cascade("[" + version + "]") == Fresh([Pair(EQ1, version)])
  {
    var text := "[" + version + "]";
    BetweenOf("[", version, "]");
    assert text[0] == '[' && text[|text| - 1] == ']';
    assert forall close: string | close in {")", ", )", ",)"} :: close[|close| - 1] == ')';
    assert Between(text, "[", ", )").None? && Between(text, "[", ")").None? by {
      assert text[|text| - 1..] == "]";
      if |text| >= 4 {
        assert text[|text| - 3..][2] == ']';
      }
    }
    assert text[..1] == "[";
    if |version| >= 2 {
      NoInnerComma(version, |version| - 2);
    }
  }

  lemma ParenthesesForm(version: string)
    requires Token(version)
    ensures Cascade("(" + version + ")") == Invalid
  {
    var text := "(" + version + ")";
    BetweenOf("(", version, ")");
    assert text[..1] == "(" && text[|text| - 1..] == ")" && text[0] == '(';
    assert text[1] == version[0] && text[|text| - 2] == version[|version| - 1];
    if |version| >= 2 {
      NoInnerComma(version, |version| - 2);
    }
    assert text[..2] == [text[0], text[1]] && text[|text| - 2..] == [text[|text| - 2], text[|text| - 1]];
  }

  /** What the rounds before leave in `dep`. */
  function LastRead(ds: seq<Dependency>, before: Option<Dependency>): Option<Dependency> {
    if ds == [] then before else Some(ds[|ds| - 1])
  }

  lemma {:induction false} ReadConcat(front: seq<string>, rest: seq<string>, before: Option<Dependency>)
    ensures ReadAll(front + rest, before) == Continued(ReadAll(front, before), rest, before)
  {
    if front == [] {
      assert front + rest == rest;
      assert ReadAll(rest, before).Ok? ==> [] + ReadAll(rest, before).value == ReadAll(rest, before).value;
    } else {
      assert (front + rest)[0] == front[0] && (front + rest)[1..] == front[1..] + rest;
      if SplitOnce(front[0], ' ').Some? {
        var (name, range) := SplitOnce(front[0], ' ').value;
        var next := if Cascade(range).Fresh? then Some(Dependency(name, Cascade(range).spec)) else before;
        if next.Some? {
          ReadConcat(front[1..], rest, next);
          ContinuedCons(next.value, ReadAll(front[1..], next), rest, before);
        }
      }
    }
  }

  /** What a list of readings becomes when more texts follow. */
  function Continued(read: Result<seq<Dependency>>, rest: seq<string>, before: Option<Dependency>): Result<seq<Dependency>> {
    if read.Err? then read else Append(read.value, ReadAll(rest, LastRead(read.value, before)))
  }

  lemma ContinuedCons(d: Dependency, read: Result<seq<Dependency>>, rest: seq<string>, before: Option<Dependency>)
    ensures Continued(Prepend(d, read), rest, before) == Prepend(d, Continued(read, rest, Some(d)))
  {
    if read.Ok? {
      var more := ReadAll(rest, LastRead(read.value, Some(d)));
      assert more.Ok? ==> [d] + (read.value + more.value) == ([d] + read.value) + more.value;
    }
  }

  /** A text that no branch reads repeats the dependency read before it, under its old name, and reading
      goes on; at the head of the list it raises. */
  lemma StaleRepeats(front: seq<string>, name: string, range: string, rest: seq<string>)
    requires FreeOf(name, {' '}) && Cascade(range) == Stale && ReadAll(front, None).Ok?
    ensures var read := ReadAll(front, None).value;
            ReadAll(front + [name + " " + range] + rest, None) ==
            if front == [] then Err(UnboundLocalError)
            else Append(read + [read[|read| - 1]], ReadAll(rest, Some(read[|read| - 1])))
  {
    var text := name + " " + range;
    var read := ReadAll(front, None).value;
    assert text == name + [' '] + range;
    SplitOnceAfter(name, ' ', range);
    assert front + [text] + rest == front + ([text] + rest) && ([text] + rest)[1..] == rest;
    ReadConcat(front, [text] + rest, None);
    ReadLength(front, None);
    if front != [] {
      AppendStep(read, read[|read| - 1], ReadAll(rest, Some(read[|read| - 1])));
    }
  }

  /** At any position, a text without a blank, and a range that the last branch refuses, raise ValueError. */
  lemma RefusedRaises(front: seq<string>, text: string, rest: seq<string>)
    requires ReadAll(front, None).Ok?
    requires FreeOf(text, {' '}) ||
             exists name, range :: FreeOf(name, {' '}) && text == name + " " + range && Cascade(range) == Invalid
    ensures ReadAll(front + [text] + rest, None) == Err(ValueError)
  {
    if FreeOf(text, {' '}) {
      NoBlank(text);
    } else {
      var name, range :| FreeOf(name, {' '}) && text == name + " " + range && Cascade(range) == Invalid;
      assert text == name + [' '] + range;
      SplitOnceAfter(name, ' ', range);
    }
    assert front + [text] + rest == front + ([text] + rest) && ([text] + rest)[0] == text;
    ReadConcat(front, [text] + rest, None);
  }

  lemma {:induction false} NoBlank(text: string)
    requires FreeOf(text, {' '})
    ensures SplitOnce(text, ' ') == None
  {
    if text != "" {
      NoBlank(text[1..]);
    }
  }

  lemma {:induction false} ReadLength(specs: seq<string>, before: Option<Dependency>)
    ensures ReadAll(specs, before).Ok? ==> |ReadAll(specs, before).value| == |specs|
  {
    if specs != [] && SplitOnce(specs[0], ' ').Some? {
      var (name, range) := SplitOnce(specs[0], ' ').value;
      ReadLength(specs[1..], if Cascade(range).Fresh? then Some(Dependency(name, Cascade(range).spec)) else before);
    }
  }

  /** `[v,)`, the usual way to write a lower bound, is such a text. */
  lemma OpenLowerBoundIsStale(version: string)
    requires Token(version)
    ensures Cascade("[" + version + ",)") == Stale
  {
    var i := Interval(true, version, "", false);
    CascadeTable(i);
    Associate("[" + version, ",", ")");
    assert Body(i) == version + ",";
    assert IntervalText(i) == "[" + version + ",)";
  }

  /** `(v, )`, with one blank after the comma, is read with the blank as its upper end. */
  lemma BlankUpperEnd(version: string)
    requires Token(version)
    ensures Cascade("(" + version + ", )") == Fresh([Conj([Pair(GT, version), Pair(LT, " ")])])
  {
    var i := Interval(false, version, " ", false);
    CascadeTable(i);
    assert IntervalText(i) == "(" + version + ", )";
  }

  /** A blank end read as an upper bound refuses every numeric version. */
  lemma BlankBoundRefuses(version: string, blank: string, op: Op)
    requires AllNumeric(version) && Blank(blank) && op in {LT, LTE}
    ensures !Accepts(version, Pair(op, blank))
  {
    ParseStrip(blank);
    ParsePart("");
    CompareIsOrder(version, blank);
    assert Versions.Parse(blank) == [-1];
  }

  // A requirement: a package name and an interval for it.
  datatype Requirement = Requirement(name: string, interval: Interval)

  function RequirementTexts(rs: seq<Requirement>): seq<string> {
    if rs == [] then [] else [rs[0].name + " " + IntervalText(rs[0].interval)] + RequirementTexts(rs[1..])
  }

  /** A list of recognised requirements is read one by one, in order, each under its own name and with
      its own interval, whatever was read before. */
  lemma {:induction false} ParseRecognised(rs: seq<Requirement>, before: Option<Dependency>, v: string)
    requires forall r | r in rs :: FreeOf(r.name, {' '}) && WellFormed(r.interval) && Recognised(r.interval)
    ensures var read := ReadAll(RequirementTexts(rs), before);
            && read.Ok? && |read.value| == |rs|
            && forall k | 0 <= k < |rs| ::
                 read.value[k].name == rs[k].name && (Check(v, read.value[k]) <==> Inside(v, rs[k].interval))
  {
    if rs != [] {
      var r := rs[0];
      assert r in rs;
      var text := IntervalText(r.interval);
      assert r.name + " " + text == r.name + [' '] + text;
      SplitOnceAfter(r.name, ' ', text);
      RecognisedMeaning(r.interval, r.name, v);
      var d := Dependency(r.name, Cascade(text).spec);
      ParseRecognised(rs[1..], Some(d), v);
      assert RequirementTexts(rs)[1..] == RequirementTexts(rs[1..]);
    }
  }
}
