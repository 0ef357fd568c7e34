// PypiDependencyParser (f8a_worker/solver.py): the rewriting of `~=` and the
// wrapping of several specifiers into one conjunction.
module Pypi {
  import opened Common
  import opened Text
  import opened Versions
  import opened Dependencies

  // Operators of a PEP 440 specifier, `==x.*` excluded.
  datatype Operator = Compatible | Arbitrary | Plain(op: Op)

  // `pieces` is what packaging's _version_split makes of `version`.
  datatype Specifier = Specifier(operator: Operator, version: string, pieces: seq<string>)

  // ----- the upper bound of ~= -----

  /** Drops trailing pieces that are not digits; None when nothing is left. */
  function StripTail(pieces: seq<string>): (r: Option<seq<string>>)
    ensures r.Some? ==> r.value != []
  {
    if pieces == [] then None
    else if AllDigits(pieces[|pieces| - 1]) then Some(pieces)
    else StripTail(pieces[..|pieces| - 1])
  }

  function UpperBound(pieces: seq<string>): Result<string> {
    if |pieces| <= 1 then Err(ValueError)
    else
      match StripTail(pieces)
      case None => Err(IndexError)
      case Some(release) =>
        if |release| == 1 then Err(IndexError)
        else
          var kept := release[..|release| - 1];
          match PyInt(kept[|kept| - 1])
          case None => Err(ValueError)
          case Some(n) => Ok(Join(kept[..|kept| - 1] + [PyStr(n + 1)], "."))
  }

  /** str() of any integer. */
  function PyStr(n: int): string {
    if n < 0 then "-" + Decimal(-n) else Decimal(n)
  }

  method CompatibleUpper(pieces: seq<string>) returns (upper: Result<string>)
    ensures upper == UpperBound(pieces)
  {
    var version := pieces;
    if |version| <= 1 {
      return Err(ValueError);
    }
    while version != [] && !AllDigits(version[|version| - 1])
      invariant StripTail(version) == StripTail(pieces)
    {
      version := version[..|version| - 1];
    }
    if version == [] {
      return Err(IndexError);
    }
    version := version[..|version| - 1];
    if version == [] {
      return Err(IndexError);
    }
    match PyInt(version[|version| - 1]) {
      case None => return Err(ValueError);
      case Some(n) =>
        version := version[|version| - 1 := PyStr(n + 1)];
        assert version == version[..|version| - 1] + [PyStr(n + 1)];
        return Ok(Join(version, "."));
    }
  }

  /** _extract_op_version. */
  function Extract(s: Specifier): Result<Spec> {
    match s.operator
    case Compatible =>
      (match UpperBound(s.pieces)
       case Err(e) => Err(e)
       case Ok(upper) => Ok(Conj([Pair(GTE, s.version), Pair(LT, upper)])))
    case Arbitrary => Ok(Pair(EQ1, s.version))
    case Plain(op) => Ok(Pair(op, s.version))
  }

  /** _get_pip_spec: nothing means any version from 0.0.0, several entries are wrapped in one list. */
  function PipSpec(entries: seq<Spec>): seq<Spec> {
    if entries == [] then [Pair(GTE, "0.0.0")]
    else if |entries| > 1 then [Conj(entries)]
    else entries
  }

  // ----- meaning -----

  /** The first `n` components, padded with zeros. */
  function Prefix(x: seq<int>, n: nat): (r: seq<int>)
    ensures |r| == n
  {
    seq(n, i requires 0 <= i < n => At(x, i))
  }

  function Drop(x: seq<int>, n: nat): seq<int> {
    if n <= |x| then x[n..] else []
  }

  function Bumped(q: seq<int>): seq<int>
    requires q != []
  {
    q[..|q| - 1] + [q[|q| - 1] + 1]
  }

  /** Between a version that starts with `q` and the bumped prefix: the prefix is `q`, or the list
      enters the bumped prefix through a negative component (a pre-release of it). */
  lemma {:induction false} BetweenPrefixes(x: seq<int>, lower: seq<int>, q: seq<int>)
    requires q != [] && q <= lower
    ensures Order(x, lower) >= 0 && Order(x, Bumped(q)) < 0 <==>
            Order(x, lower) >= 0 && (Prefix(x, |q|) == q || (Prefix(x, |q|) == Bumped(q) && Order(Drop(x, |q|), []) < 0))
    decreases q
  {
    PrefixCons(x, q);
    PrefixCons(x, Bumped(q));
    if |q| == 1 {
      assert Prefix(Rest(x), 0) == q[1..] == Bumped(q)[1..] == [];
      assert Drop(x, 1) == Rest(x);
      assert Order(x, lower) == if Head(x) < q[0] then -1 else if Head(x) > q[0] then 1 else Order(Rest(x), lower[1..]);
    } else {
      var b := Bumped(q);
      assert b[0] == q[0] && b[1..] == Bumped(q[1..]);
      assert Drop(Rest(x), |q| - 1) == Drop(x, |q|);
      if Head(x) == q[0] {
        BetweenPrefixes(Rest(x), lower[1..], q[1..]);
      }
    }
  }

  lemma PrefixCons(x: seq<int>, q: seq<int>)
    requires q != []
    ensures Prefix(x, |q|) == q <==> Head(x) == q[0] && Prefix(Rest(x), |q| - 1) == q[1..]
  {
    var p := Prefix(x, |q|);
    assert p[0] == Head(x);
    assert Prefix(Rest(x), |q| - 1) == p[1..];
    assert p == [p[0]] + p[1..] && q == [q[0]] + q[1..];
  }

  // ----- reading the strings -----

  predicate Release(pieces: seq<string>) {
    forall p | p in pieces :: AllDigits(p)
  }

  predicate Tail(pieces: seq<string>) {
    forall p | p in pieces :: !AllDigits(p)
  }

  lemma {:induction false} StripTailOf(release: seq<string>, tail: seq<string>)
    requires release != [] && Release(release) && Tail(tail)
    ensures StripTail(release + tail) == Some(release)
  {
    if tail == [] {
      assert release + tail == release && release[|release| - 1] in release;
    } else {
      assert tail[|tail| - 1] in tail;
      assert (release + tail)[..|release + tail| - 1] == release + tail[..|tail| - 1];
      StripTailOf(release, tail[..|tail| - 1]);
    }
  }

  lemma ParseRelease(release: seq<string>)
    requires release != [] && Release(release)
    ensures Parse(Join(release, ".")) == Components(release)
  {
    forall p | p in release ensures FreeOf(p, {'.'}) && FreeOf(p, {'-'}) {
    }
    JoinFree(release, ".", '-');
    var text := Join(release, ".");
    assert Replace(text, '-', '.') == text;
    SplitJoin(release, ".");
  }

  lemma {:induction false} JoinFree(parts: seq<string>, sep: string, c: char)
    requires FreeOf(sep, {c}) && forall p | p in parts :: FreeOf(p, {c})
    ensures FreeOf(Join(parts, sep), {c})
  {
    if parts != [] {
      assert parts[0] in parts;
    }
    if |parts| > 1 {
      JoinFree(parts[1..], sep, c);
    }
  }

  lemma BumpedComponents(kept: seq<string>, n: nat)
    requires kept != [] && Component(kept[|kept| - 1]) == n
    ensures AllDigits(Decimal(n + 1))
    ensures Components(kept[..|kept| - 1] + [Decimal(n + 1)]) == Bumped(Components(kept))
  {
    PyIntOfDecimal(n + 1);
  }

  lemma BumpedText(kept: seq<string>)
    requires kept != [] && Release(kept)
    ensures var last := PyInt(kept[|kept| - 1]);
            && last.Some? && last.value >= 0
            && Parse(Join(kept[..|kept| - 1] + [PyStr(last.value + 1)], ".")) == Bumped(Components(kept))
  {
    var last := kept[|kept| - 1];
    assert last in kept;
    PyIntOfDigits(last);
    var n := DigitsValue(last).value;
    BumpedComponents(kept, n);
    var upper := kept[..|kept| - 1] + [Decimal(n + 1)];
    assert forall p | p in kept[..|kept| - 1] :: p in kept;
    ParseRelease(upper);
  }

  lemma UpperBoundOf(release: seq<string>, tail: seq<string>)
    requires |release| >= 2 && Release(release) && Tail(tail)
    ensures var r := UpperBound(release + tail);
            r.Ok? && Parse(r.value) == Bumped(Components(release[..|release| - 1]))
  {
    StripTailOf(release, tail);
    assert forall p | p in release[..|release| - 1] :: p in release;
    BumpedText(release[..|release| - 1]);
  }

  /** `~=V` is read exactly when at least two segments stand before the first piece from which on nothing is
      a number; a lone piece raises ValueError, anything else IndexError. */
  lemma ReadExactly(release: seq<string>, tail: seq<string>)
    requires Release(release) && Tail(tail)
    ensures UpperBound(release + tail).Ok? <==> |release| >= 2
    ensures |release| < 2 ==> UpperBound(release + tail) == Err(if |release| + |tail| <= 1 then ValueError else IndexError)
  {
    if |release| >= 2 {
      UpperBoundOf(release, tail);
    } else if release != [] {
      StripTailOf(release, tail);
    } else {
      assert release + tail == tail;
      TailOnly(tail);
    }
  }

  lemma {:induction false} TailOnly(tail: seq<string>)
    requires Tail(tail)
    ensures StripTail(tail) == None
  {
    if tail != [] {
      assert tail[|tail| - 1] in tail;
      TailOnly(tail[..|tail| - 1]);
    }
  }

  /** `~=V` for V with at least two release segments, and an optional tail, accepts exactly the versions
      that are at least V and either start with all but the last release segment, or are a
      pre-release of the next such prefix. */
  lemma CompatibleReleaseExact(version: string, release: seq<string>, tail: seq<string>, w: string)
    requires |release| >= 2 && Release(release) && Tail(tail)
    requires Components(release[..|release| - 1]) <= Parse(version)
    ensures var r := Extract(Specifier(Compatible, version, release + tail));
            var q := Components(release[..|release| - 1]);
            var p := Prefix(Parse(w), |q|);
            r.Ok? && (Accepts(w, r.value) <==>
              Compare(w, version) >= 0 && (p == q || (p == Bumped(q) && Order(Drop(Parse(w), |q|), []) < 0)))
  {
    UpperBoundOf(release, tail);
    PairAccepts(version, UpperBound(release + tail).value, Components(release[..|release| - 1]), w);
  }

  lemma PairAccepts(version: string, upper: string, q: seq<int>, w: string)
    requires q != [] && q <= Parse(version) && Parse(upper) == Bumped(q)
    ensures var p := Prefix(Parse(w), |q|);
            Accepts(w, Conj([Pair(GTE, version), Pair(LT, upper)])) <==>
            Compare(w, version) >= 0 && (p == q || (p == Bumped(q) && Order(Drop(Parse(w), |q|), []) < 0))
  {
    BetweenPrefixes(Parse(w), Parse(version), q);
    CompareIsOrder(w, version);
    CompareIsOrder(w, upper);
    OrderFlip(Parse(w), Parse(upper));
    BothAccept(w, Pair(GTE, version), Pair(LT, upper));
    assert Accepts(w, Pair(GTE, version)) <==> Order(Parse(w), Parse(version)) >= 0;
    assert Accepts(w, Pair(LT, upper)) <==> Order(Parse(w), Bumped(q)) < 0;
  }

  /** PEP 440: `~=V` means `>= V, == V.*` with the last segment of V replaced by the star. */
  predicate CompatibleWith(w: string, release: seq<string>)
    requires |release| >= 2
  {
    var version := Join(release, ".");
    Compare(w, version) >= 0 && Prefix(Parse(w), |release| - 1) == Prefix(Parse(version), |release| - 1)
  }

  function CompatibleSpec(release: seq<string>): Result<Spec> {
    Extract(Specifier(Compatible, Join(release, "."), release))
  }

  lemma CompatibleReads(release: seq<string>)
    requires |release| >= 2 && Release(release)
    ensures CompatibleSpec(release).Ok?
  {
    UpperBoundOf(release, []);
    assert release + [] == release;
  }

  lemma NumericDrop(w: string, n: nat)
    requires AllNumeric(w)
    ensures Order(Drop(Parse(w), n), []) >= 0
  {
    NonNegativeOrder(Drop(Parse(w), n));
  }

  lemma ComponentsPrefix(pieces: seq<string>, n: nat)
    requires n <= |pieces|
    ensures Components(pieces[..n]) == Components(pieces)[..n] == Prefix(Components(pieces), n)
  {
  }

  /** The compatible release clause of PEP 440, on all numeric versions and releases. */
  lemma CompatibleRelease(release: seq<string>, w: string)
    requires |release| >= 2 && Release(release) && AllNumeric(w)
    ensures CompatibleSpec(release).Ok? && (Accepts(w, CompatibleSpec(release).value) <==> CompatibleWith(w, release))
  {
    var version := Join(release, ".");
    var n := |release| - 1;
    ParseRelease(release);
    ComponentsPrefix(release, n);
    assert release + [] == release;
    CompatibleReleaseExact(version, release, [], w);
    NumericDrop(w, n);
  }

  lemma {:induction false} BumpedAbove(q: seq<int>, more: seq<int>, lower: seq<int>)
    requires q != [] && q <= lower
    ensures Order(Bumped(q) + more, lower) == 1
  {
    var x := Bumped(q) + more;
    if |q| > 1 {
      assert x[0] == q[0] && x[1..] == Bumped(q[1..]) + more;
      BumpedAbove(q[1..], more, lower[1..]);
    }
  }

  /** Off the numeric releases the code departs from PEP 440: `~=V` always lets in the pre-releases of
      its own upper bound, which do not start with the prefix of V (~=1.4.2 accepts 1.5.rc). */
  lemma CompatibleAdmitsNextPrerelease(release: seq<string>, upper: string)
    requires |release| >= 2 && Release(release) && UpperBound(release) == Ok(upper)
    ensures var version := Join(release, ".");
            var n := |release| - 1;
            && Extract(Specifier(Compatible, version, release)) == Ok(Conj([Pair(GTE, version), Pair(LT, upper)]))
            && Accepts(upper + ".rc", Conj([Pair(GTE, version), Pair(LT, upper)]))
            && Prefix(Parse(upper + ".rc"), n) != Prefix(Parse(version), n)
  {
    var version := Join(release, ".");
    var q := Components(release[..|release| - 1]);
    assert release + [] == release;
    UpperBoundOf(release, []);
    ParseRelease(release);
    PrereleaseOfUpper(version, upper, q);
  }

  lemma PrereleasePrefix(lower: seq<int>, q: seq<int>, w: seq<int>)
    requires q != [] && q <= lower && w == Bumped(q) + [-1]
    ensures Prefix(w, |q|) != Prefix(lower, |q|)
  {
    assert Prefix(lower, |q|)[|q| - 1] == q[|q| - 1];
    assert Prefix(w, |q|)[|q| - 1] == q[|q| - 1] + 1;
  }

  lemma PrereleaseOfUpper(version: string, upper: string, q: seq<int>)
    requires q != [] && q <= Parse(version) && Parse(upper) == Bumped(q)
    ensures Prefix(Parse(upper + ".rc"), |q|) != Prefix(Parse(version), |q|)
    ensures Accepts(upper + ".rc", Conj([Pair(GTE, version), Pair(LT, upper)]))
  {
    ParseNeighbours(upper);
    PrereleasePrefix(Parse(version), q, Parse(upper + ".rc"));
    BumpedAbove(q, [-1], Parse(version));
    CompareIsOrder(upper + ".rc", version);
    Neighbours(upper);
  }

  /** A post-release written with a dash widens the range: in `~=1.4.2-1` the piece `2-1` is no number, so
      `1.4` is read as the release and `1.5` is let in, where PEP 440 asks for `1.4.*`. */
  lemma DashedPostReleaseWidens(release: seq<string>, last: string, post: string, n: nat)
    requires |release| >= 2 && Release(release) && AllDigits(last) && AllDigits(post) && PyInt(release[|release| - 1]) == Some(n)
    ensures var version := Join(release + [last], ".") + "-" + post;
            var r := Extract(Specifier(Compatible, version, release + [last + "-" + post]));
            var w := Join(release[..|release| - 1] + [Decimal(n + 1)], ".");
            && r.Ok? && Accepts(w, r.value)
            && Prefix(Parse(version), |release|) == Components(release) != Prefix(Parse(w), |release|)
  {
    DashedParts(release, last, post);
    assert (last + "-" + post)[|last|] == '-';
    GluedTailWidens(Join(release + [last], ".") + "-" + post, release, last + "-" + post, n);
  }

  /** Whenever the last piece of V is a number with something glued to it, as in `2-1`, `2alpha1` or `2post1`,
      it is dropped with its number: the segment before it is no longer fixed. */
  lemma GluedTailWidens(version: string, release: seq<string>, tail: string, n: nat)
    requires |release| >= 2 && Release(release) && !AllDigits(tail) && PyInt(release[|release| - 1]) == Some(n)
    requires Components(release) <= Parse(version)
    ensures var r := Extract(Specifier(Compatible, version, release + [tail]));
            var w := Join(release[..|release| - 1] + [Decimal(n + 1)], ".");
            && r.Ok? && Accepts(w, r.value)
            && Prefix(Parse(version), |release|) == Components(release) != Prefix(Parse(w), |release|)
  {
    var kept := release[..|release| - 1];
    var w := Join(kept + [Decimal(n + 1)], ".");
    NextRelease(release, n);
    assert Components(kept) <= Components(release);
    CompatibleReleaseExact(version, release, [tail], w);
    BumpedAbove(Components(release), [], Parse(version));
    assert Bumped(Components(release)) + [] == Bumped(Components(release));
    CompareIsOrder(w, version);
  }

  lemma NextRelease(release: seq<string>, n: nat)
    requires release != [] && Release(release) && PyInt(release[|release| - 1]) == Some(n)
    ensures Parse(Join(release[..|release| - 1] + [Decimal(n + 1)], ".")) == Bumped(Components(release))
  {
    var kept := release[..|release| - 1];
    BumpedComponents(release, n);
    assert forall p | p in kept :: p in release;
    ParseRelease(kept + [Decimal(n + 1)]);
  }

  lemma DashedParts(release: seq<string>, last: string, post: string)
    requires Release(release + [last]) && AllDigits(post)
    ensures Parse(Join(release + [last], ".") + "-" + post) == Components(release) + [Component(last), Component(post)]
  {
    ParseRelease(release + [last]);
    ParseExtension(Join(release + [last], "."), '-', post);
    ParsePart(post);
    assert Components(release + [last]) == Components(release) + [Component(last)];
  }

  // ----- a whole requirement -----

  /** The specifiers in order; the first unreadable one raises. */
  function ExtractAll(specifiers: seq<Specifier>): Result<seq<Spec>> {
    if specifiers == [] then Ok([])
    else
      match Extract(specifiers[0])
      case Err(e) => Err(e)
      case Ok(s) =>
        match ExtractAll(specifiers[1..])
        case Err(e) => Err(e)
        case Ok(rest) => Ok([s] + rest)
  }

  /** _parse_python, from the name and the specifiers pip finds. */
  function ParsePython(name: string, specifiers: seq<Specifier>): Result<Dependency> {
    match ExtractAll(specifiers)
    case Err(e) => Err(e)
    case Ok(entries) => Ok(Dependency(name, PipSpec(entries)))
  }

  /** The numbers a version starts with. */
  function Numbers(pieces: seq<string>): (r: seq<string>)
    ensures r <= pieces && Release(r)
  {
    if pieces == [] || !AllDigits(pieces[0]) then []
    else [pieces[0]] + Numbers(pieces[1..])
  }

  /** The pieces of a version are numbers and then others, and its components start with the numbers but the last. */
  ghost predicate WellSplit(s: Specifier) {
    var release := Numbers(s.pieces);
    && Tail(s.pieces[|release|..])
    && (|release| >= 2 ==> Components(release[..|release| - 1]) <= Parse(s.version))
  }

  predicate Readable(s: Specifier) {
    s.operator.Compatible? ==> |Numbers(s.pieces)| >= 2
  }

  /** What a readable specifier asks of a version, in terms of the infinite zero-extended lists. */
  ghost predicate SpecifierHolds(w: string, s: Specifier)
    requires Readable(s)
  {
    match s.operator
    case Plain(op) => Related(op, w, s.version)
    case Arbitrary => Trim(Parse(w)) == Trim(Parse(s.version))
    case Compatible =>
      var n := |Numbers(s.pieces)| - 1;
      var (prefix, start) := (Components(Numbers(s.pieces)[..n]), Prefix(Parse(w), n));
      !Before(Parse(w), Parse(s.version)) &&
      (start == prefix || (start == Bumped(prefix) && Before(Drop(Parse(w), n), [])))
  }

  lemma ExtractMeaning(s: Specifier, w: string)
    requires WellSplit(s)
    ensures Extract(s).Ok? <==> Readable(s)
    ensures Readable(s) ==> (Accepts(w, Extract(s).value) <==> SpecifierHolds(w, s))
  {
    match s.operator
    case Plain(op) => ComparatorMeaning(op, w, s.version);
    case Arbitrary => ComparatorMeaning(EQ1, w, s.version);
    case Compatible => CompatibleMeaning(s, w);
  }

  lemma CompatibleMeaning(s: Specifier, w: string)
    requires WellSplit(s) && s.operator == Compatible
    ensures Extract(s).Ok? <==> Readable(s)
    ensures Readable(s) ==> (Accepts(w, Extract(s).value) <==> SpecifierHolds(w, s))
  {
    var release := Numbers(s.pieces);
    var tail := s.pieces[|release|..];
    assert s.pieces == release + tail;
    ReadExactly(release, tail);
    if |release| >= 2 {
      CompatibleReleaseExact(s.version, release, tail, w);
      CompareMeaning(w, s.version);
      OrderIsBefore(Drop(Parse(w), |release| - 1), []);
    }
  }

  lemma {:induction false} ExtractAllMeaning(specifiers: seq<Specifier>, w: string)
    requires forall s | s in specifiers :: WellSplit(s)
    ensures ExtractAll(specifiers).Ok? <==> forall s | s in specifiers :: Readable(s)
    ensures ExtractAll(specifiers).Ok? ==>
              && |ExtractAll(specifiers).value| == |specifiers|
              && (AllAccept(w, ExtractAll(specifiers).value) <==> forall s | s in specifiers :: SpecifierHolds(w, s))
  {
    if specifiers != [] {
      var (s, rest) := (specifiers[0], specifiers[1..]);
      assert specifiers == [s] + rest && s in specifiers;
      ExtractMeaning(s, w);
      ExtractAllMeaning(rest, w);
      if Readable(s) && ExtractAll(rest).Ok? {
        AllAcceptCons(w, Extract(s).value, ExtractAll(rest).value);
      }
    }
  }

  ghost predicate AllAccept(w: string, entries: seq<Spec>) {
    forall e | e in entries :: Accepts(w, e)
  }

  lemma AllAcceptCons(w: string, s: Spec, rest: seq<Spec>)
    ensures AllAccept(w, [s] + rest) <==> Accepts(w, s) && AllAccept(w, rest)
  {
    assert ([s] + rest)[0] == s && forall e | e in [s] + rest :: e == s || e in rest;
  }

  lemma SoleCompatible(name: string, release: seq<string>)
    requires |release| >= 2 && Release(release)
    ensures CompatibleSpec(release).Ok?
    ensures ParsePython(name, [Specifier(Compatible, Join(release, "."), release)]) ==
            Ok(Dependency(name, PipSpec([CompatibleSpec(release).value])))
  {
    CompatibleReads(release);
    var s := Specifier(Compatible, Join(release, "."), release);
    assert [s][1..] == [] && ExtractAll([]) == Ok([]);
    assert [Extract(s).value] + [] == [Extract(s).value];
  }

  /** What a requirement asks of a version: every specifier, or, without specifiers, not to be below zero. */
  ghost predicate RequirementHolds(w: string, specifiers: seq<Specifier>) {
    if specifiers == [] then !Before(Parse(w), [])
    else forall s | s in specifiers :: Readable(s) && SpecifierHolds(w, s)
  }

  /** A requirement is read exactly when each of its `~=` is readable, and its check then holds of exactly
      the versions for which the requirement holds. */
  lemma ParsePythonMeaning(name: string, specifiers: seq<Specifier>, w: string)
    requires forall s | s in specifiers :: WellSplit(s)
    ensures ParsePython(name, specifiers).Ok? <==> forall s | s in specifiers :: Readable(s)
    ensures ParsePython(name, specifiers).Ok? ==>
              var d := ParsePython(name, specifiers).value;
              d.name == name && (Check(w, d) <==> RequirementHolds(w, specifiers))
  {
    ExtractAllMeaning(specifiers, w);
    if ExtractAll(specifiers).Ok? {
      PipSpecMeaning(name, ExtractAll(specifiers).value, w);
      OrderIsBefore(Parse(w), []);
    }
  }

  /** The wrapping means the conjunction of all specifiers; without specifiers, any version that is
      not below zero. */
  lemma PipSpecMeaning(name: string, entries: seq<Spec>, version: string)
    ensures entries != [] ==>
              (Check(version, Dependency(name, PipSpec(entries))) <==> forall e | e in entries :: Accepts(version, e))
    ensures entries == [] ==>
              (Check(version, Dependency(name, PipSpec(entries))) <==> Order(Parse(version), []) >= 0)
  {
    var spec := PipSpec(entries);
    assert spec[0] in spec;
    if entries == [] {
      ZeroVersion(version);
    }
  }
}
