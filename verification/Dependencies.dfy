// Dependency.check (f8a_worker/solver.py): an or of ands of comparators over
// compare_version.
module Dependencies {
  import opened Text
  import opened Versions

  // The tokens, in the order of Tokens.operators.
  datatype Op = GTE | LTE | EQ1 | GT | LT | EQ2 | NEQ

  const OPERATORS: seq<Op> := [GTE, LTE, EQ1, GT, LT, EQ2, NEQ]

  function OpText(op: Op): string {
    match op
    case GTE => ">="
    case LTE => "<="
    case EQ1 => "=="
    case GT => ">"
    case LT => "<"
    case EQ2 => "="
    case NEQ => "!="
  }

  // One entry of a spec: an (operator, version) pair, a one-element tuple
  // holding a bare version, or a nested list.
  datatype Spec =
    | Pair(op: Op, version: string)
    | Single(version: string)
    | Conj(items: seq<Spec>)

  datatype Dependency = Dependency(name: string, spec: seq<Spec>)

  /** All entries given for `name`, in order. */
  function Wanted(deps: seq<Dependency>, name: string): seq<Spec> {
    if deps == [] then [] else (if deps[0].name == name then deps[0].spec else []) + Wanted(deps[1..], name)
  }

  /** Every entry is a pair. */
  predicate Flat(spec: seq<Spec>) {
    forall s | s in spec :: s.Pair?
  }

  predicate AllFlat(deps: seq<Dependency>) {
    forall d | d in deps :: Flat(d.spec)
  }

  predicate Holds(op: Op, comparison: int) {
    match op
    case GTE => comparison >= 0
    case LTE => comparison <= 0
    case GT => comparison == 1
    case LT => comparison == -1
    case EQ1 | EQ2 => comparison == 0
    case NEQ => comparison != 0
  }

  /** _compare_spec and _all on one entry. */
  predicate Accepts(version: string, s: Spec) {
    match s
    case Pair(op, bound) => Holds(op, Compare(version, bound))
    case Single(bound) => Holds(EQ2, Compare(version, bound))
    case Conj(items) => forall i | i in items :: Accepts(version, i)
  }

  /** Dependency.check. */
  predicate Check(version: string, d: Dependency) {
    exists s :: s in d.spec && Accepts(version, s)
  }

  /** The comparators of an entry, nesting removed. */
  function Leaves(s: Spec): seq<Spec>
    decreases s, 0
  {
    if s.Conj? then AllLeaves(s.items) else [s]
  }

  function AllLeaves(items: seq<Spec>): seq<Spec>
    decreases items, 1
  {
    if items == [] then [] else Leaves(items[0]) + AllLeaves(items[1..])
  }

  /** No comparator of the entry is `!=`. */
  predicate NoExclusion(s: Spec) {
    match s
    case Pair(op, _) => op != NEQ
    case Single(_) => true
    case Conj(items) => forall i | i in items :: NoExclusion(i)
  }

  // ----- proofs -----

  /** What an operator asks of the infinite zero-extended component lists. */
  ghost predicate Related(op: Op, version: string, bound: string) {
    var (v, b) := (Parse(version), Parse(bound));
    match op
    case GTE => !Before(v, b)
    case LTE => !Before(b, v)
    case GT => Before(b, v)
    case LT => Before(v, b)
    case EQ1 | EQ2 => Trim(v) == Trim(b)
    case NEQ => Trim(v) != Trim(b)
  }

  /** Each comparator means its relation between the infinite lists; a bare version means equality. */
  lemma ComparatorMeaning(op: Op, version: string, bound: string)
    ensures Accepts(version, Pair(op, bound)) <==> Related(op, version, bound)
    ensures Accepts(version, Single(bound)) <==> Trim(Parse(version)) == Trim(Parse(bound))
  {
    CompareMeaning(version, bound);
    CompareTotalPreorder(version, bound, bound);
  }

  lemma BothAccept(v: string, p: Spec, q: Spec)
    ensures Accepts(v, Conj([p, q])) <==> Accepts(v, p) && Accepts(v, q)
  {
    assert [p, q][0] == p && [p, q][1] == q;
  }

  lemma SoleEntry(v: string, name: string, s: Spec)
    ensures Check(v, Dependency(name, [s])) <==> Accepts(v, s)
  {
    assert [s][0] == s;
  }

  /** However deeply a conjunction is nested, it means the conjunction of its comparators. */
  lemma {:induction false} ConjunctionOfLeaves(version: string, s: Spec)
    ensures Accepts(version, s) <==> forall leaf | leaf in Leaves(s) :: Accepts(version, leaf)
    ensures forall leaf | leaf in Leaves(s) :: !leaf.Conj?
    decreases s, 0
  {
    if s.Conj? {
      ConjunctionOfAllLeaves(version, s.items);
    }
  }

  lemma {:induction false} ConjunctionOfAllLeaves(version: string, items: seq<Spec>)
    ensures (forall i | i in items :: Accepts(version, i)) <==> forall leaf | leaf in AllLeaves(items) :: Accepts(version, leaf)
    ensures forall leaf | leaf in AllLeaves(items) :: !leaf.Conj?
    decreases items, 1
  {
    if items != [] {
      ConjunctionOfLeaves(version, items[0]);
      ConjunctionOfAllLeaves(version, items[1..]);
      assert items == [items[0]] + items[1..];
    }
  }

  lemma {:induction false} AcceptsCongruent(v: string, w: string, s: Spec)
    requires Compare(v, w) == 0
    ensures Accepts(v, s) <==> Accepts(w, s)
    decreases s
  {
    match s
    case Pair(_, bound) => CompareTotalPreorder(v, w, bound);
    case Single(bound) => CompareTotalPreorder(v, w, bound);
    case Conj(items) =>
      forall i | i in items ensures Accepts(v, i) <==> Accepts(w, i) {
        AcceptsCongruent(v, w, i);
      }
  }

  /** Versions that compare equal are accepted alike. */
  lemma CheckCongruent(v: string, w: string, d: Dependency)
    requires Compare(v, w) == 0
    ensures Check(v, d) <==> Check(w, d)
  {
    forall s | s in d.spec ensures Accepts(v, s) <==> Accepts(w, s) {
      AcceptsCongruent(v, w, s);
    }
  }

  lemma ComparatorConvex(op: Op, bound: string, v: string, x: string, w: string)
    requires op != NEQ
    requires Compare(v, x) <= 0 && Compare(x, w) <= 0
    requires Holds(op, Compare(v, bound)) && Holds(op, Compare(w, bound))
    ensures Holds(op, Compare(x, bound))
  {
    CompareTotalPreorder(v, x, bound);
    CompareTotalPreorder(x, w, bound);
    CompareTotalPreorder(bound, v, x);
    CompareTotalPreorder(bound, x, v);
  }

  /** A clause without `!=` accepts a convex set of versions. */
  lemma {:induction false} AcceptsConvex(s: Spec, v: string, x: string, w: string)
    requires NoExclusion(s)
    requires Compare(v, x) <= 0 && Compare(x, w) <= 0
    requires Accepts(v, s) && Accepts(w, s)
    ensures Accepts(x, s)
    decreases s
  {
    match s
    case Pair(op, bound) => ComparatorConvex(op, bound, v, x, w);
    case Single(bound) => ComparatorConvex(EQ2, bound, v, x, w);
    case Conj(items) =>
      forall i | i in items ensures Accepts(x, i) {
        AcceptsConvex(i, v, x, w);
      }
  }

  // ----- no version is isolated -----

  lemma {:induction false} OrderOfExtensions(x: seq<int>, more: seq<int>, other: seq<int>)
    ensures Order(x + more, x + other) == Order(more, other)
  {
    if x == [] {
      assert x + more == more && x + other == other;
    } else {
      assert (x + more)[1..] == x[1..] + more && (x + other)[1..] == x[1..] + other;
      OrderOfExtensions(x[1..], more, other);
    }
  }

  /** Dots and dashes separate alike: the parts of a longer version are the parts of its pieces. */
  lemma ParseExtension(version: string, separator: char, more: string)
    requires separator in {'.', '-'}
    ensures Parse(version + [separator] + more) == Parse(version) + Parse(more)
  {
    var (a, b) := (Replace(version, '-', '.'), Replace(more, '-', '.'));
    assert Replace(version + [separator] + more, '-', '.') == a + "." + b;
    var (p, q) := (SplitOn(a, "."), SplitOn(b, "."));
    assert a + "." + b == a + ['.'] + b;
    SplitConcat(a, '.', b);
    assert Components(p + q) == Components(p) + Components(q);
  }

  /** A version with more parts compares to the version as the added parts compare to zero: an added
      rc, alpha or beta makes it lower, an added number higher, an added zero leaves it equal. */
  lemma AnnotationOrder(version: string, separator: char, more: string)
    requires separator in {'.', '-'}
    ensures Compare(version + [separator] + more, version) == Order(Parse(more), [])
  {
    ParseExtension(version, separator, more);
    CompareIsOrder(version + [separator] + more, version);
    OrderOfExtensions(Parse(version), Parse(more), []);
    assert Parse(version) + [] == Parse(version);
  }

  lemma DigitComponent(n: nat, text: string)
    requires Decimal(n) == text
    ensures Component(text) == n && AllDigits(text)
  {
    PyIntOfDecimal(n);
  }

  /** No number: digits with something glued to them that holds a character int() knows nothing of. */
  ghost predicate Glued(n: string, glue: string) {
    AllDigits(n) && FreeOf(glue, {'.', '-'}) &&
    exists c :: c in glue && !IsDigit(c) && !IsSpace(c) && c !in {'_', '+'}
  }

  /** Glued to the last number of a version, an annotation makes it lower: `2.0rc1` comes before `2.0`. */
  lemma GluedBelow(version: string, n: string, glue: string)
    requires Glued(n, glue)
    ensures Compare(version + "." + (n + glue), version + "." + n) == -1
  {
    var c :| c in glue && !IsDigit(c) && !IsSpace(c) && c !in {'_', '+'};
    assert c != '-' by {
      var i :| 0 <= i < |glue| && glue[i] == c;
    }
    assert c in n + glue;
    OtherRefused(n + glue, c);
    ParsePart(n + glue);
    ParsePart(n);
    PyIntOfDigits(n);
    ParseExtension(version, '.', n + glue);
    ParseExtension(version, '.', n);
    assert version + ['.'] + (n + glue) == version + "." + (n + glue) && version + ['.'] + n == version + "." + n;
    CompareIsOrder(version + "." + (n + glue), version + "." + n);
    OrderOfExtensions(Parse(version), [-1], Parse(n));
  }

  /** A text without separators is one part. */
  lemma ParsePart(part: string)
    requires FreeOf(part, {'.', '-'})
    ensures Parse(part) == [Component(part)]
  {
    assert Replace(part, '-', '.') == part;
    SplitFree(part, ".");
  }

  lemma ParseNeighbours(version: string)
    ensures Parse(version + ".rc") == Parse(version) + [-1]
    ensures Parse("rc") == [-1] && Parse("1") == [1]
  {
    assert Strip("rc") == "rc";
    ParsePart("rc");
    DigitComponent(1, "1");
    ParsePart("1");
    ParseExtension(version, '.', "rc");
    assert version + ".rc" == version + ['.'] + "rc";
  }

  /** Just below and just above every version lie further versions. */
  lemma Neighbours(version: string)
    ensures Compare(version + ".rc", version) == -1
    ensures Compare(version + ".1", version) == 1
  {
    ParseNeighbours(version);
    AnnotationOrder(version, '.', "rc");
    AnnotationOrder(version, '.', "1");
    assert version + ".rc" == version + ['.'] + "rc" && version + ".1" == version + ['.'] + "1";
  }

  /** `!=` never accepts a convex set: each excluded version has accepted ones on both sides. */
  lemma ExclusionNotConvex(bound: string)
    ensures var (v, w) := (bound + ".rc", bound + ".1");
            && Compare(v, bound) <= 0 && Compare(bound, w) <= 0
            && Accepts(v, Pair(NEQ, bound)) && Accepts(w, Pair(NEQ, bound)) && !Accepts(bound, Pair(NEQ, bound))
  {
    Neighbours(bound);
    CompareTotalPreorder(bound, bound + ".1", bound);
  }
}
