// compare_version (f8a_worker/solver.py): versions become lists of integers,
// the shorter list of a pair is padded with zeros, and the padded lists are
// compared lexicographically.
module Versions {
  import opened Common
  import opened Text
  import opened Sorting

  /** One dot-separated part; what int() refuses counts as -1. */
  function Component(part: string): int {
    match PyInt(part)
    case Some(n) => n
    case None => -1
  }

  function Components(parts: seq<string>): (r: seq<int>)
    ensures |r| == |parts|
    ensures forall i | 0 <= i < |parts| :: r[i] == Component(parts[i])
  {
    seq(|parts|, i requires 0 <= i < |parts| => Component(parts[i]))
  }

  function Parse(version: string): (r: seq<int>)
    ensures r != []
  {
    Components(SplitOn(Replace(version, '-', '.'), "."))
  }

  predicate NonNegative(x: seq<int>) {
    forall i | 0 <= i < |x| :: x[i] >= 0
  }

  /** Every part of the version is a number. */
  predicate AllNumeric(version: string) {
    NonNegative(Parse(version))
  }

  function NumberOrNot(part: string): int {
    if NumberText(part) then NumberValue(part) else -1
  }

  // ----- the code -----

  function Zeros(n: nat): (r: seq<int>)
    ensures |r| == n && forall i | 0 <= i < n :: r[i] == 0
  {
    seq(n, _ => 0)
  }

  /** Both lists at the length of the longer one. */
  function Cardinal(x: seq<int>, y: seq<int>): (p: (seq<int>, seq<int>))
    ensures |p.0| == |p.1| == Max(|x|, |y|)
  {
    if |x| == |y| then (x, y)
    else if |x| > |y| then (x, y + Zeros(|x| - |y|))
    else (x + Zeros(|y| - |x|), y)
  }

  /** Python's `x < y` on lists. */
  predicate ListLess(x: seq<int>, y: seq<int>) {
    if y == [] then false
    else if x == [] then true
    else if x[0] != y[0] then x[0] < y[0]
    else ListLess(x[1..], y[1..])
  }

  function Compare(a: string, b: string): int {
    var (left, right) := Cardinal(Parse(a), Parse(b));
    (if ListLess(right, left) then 1 else 0) - (if ListLess(left, right) then 1 else 0)
  }

  /** What int() makes of each part between dots and dashes: the value of a number, -1 for any other text. */
  method Range(q: string) returns (r: seq<int>)
    ensures r == Parse(q)
    ensures var parts := SplitOn(Replace(q, '-', '.'), ".");
            && |r| == |parts|
            && forall i | 0 <= i < |r| ::
                 var part := Strip(parts[i]);
                 r[i] == if NumberText(part) then NumberValue(part) else -1
  {
    r := [];
    var parts := SplitOn(Replace(q, '-', '.'), ".");
    for k := 0 to |parts|
      invariant |r| == k && forall i | 0 <= i < k :: r[i] == Component(parts[i]) == NumberOrNot(Strip(parts[i]))
    {
      PyIntExact(parts[k]);
      match PyInt(parts[k]) {
        case Some(n) => r := r + [n];
        case None => r := r + [-1];
      }
    }
  }

  method AppendZeros(x: seq<int>, numZeros: nat) returns (nx: seq<int>)
    ensures nx == x + Zeros(numZeros)
  {
    nx := x;
    for k := 0 to numZeros
      invariant nx == x + Zeros(k)
    {
      nx := nx + [0];
    }
  }

  method CompareVersion(a: string, b: string) returns (c: int)
    ensures c == Order(Parse(a), Parse(b))
  {
    var left := Range(a);
    var right := Range(b);
    if |left| > |right| {
      right := AppendZeros(right, |left| - |right|);
    } else if |left| < |right| {
      left := AppendZeros(left, |right| - |left|);
    }
    assert (left, right) == Cardinal(Parse(a), Parse(b));
    c := (if ListLess(right, left) then 1 else 0) - (if ListLess(left, right) then 1 else 0);
    OrderOfCardinal(Parse(a), Parse(b));
  }

  // ----- the meaning: infinite lists padded with zeros -----

  function Head(x: seq<int>): int {
    if x == [] then 0 else x[0]
  }

  function Rest(x: seq<int>): seq<int> {
    if x == [] then [] else x[1..]
  }

  /** The sign of the first difference between the zero-extended lists. */
  function Order(x: seq<int>, y: seq<int>): int
    decreases |x| + |y|
  {
    if x == [] && y == [] then 0
    else if Head(x) < Head(y) then -1
    else if Head(x) > Head(y) then 1
    else Order(Rest(x), Rest(y))
  }

  /** Position `i` of the zero-extended list. */
  function At(x: seq<int>, i: nat): int {
    if i < |x| then x[i] else 0
  }

  ghost predicate AgreeBelow(x: seq<int>, y: seq<int>, n: nat) {
    forall j: nat | j < n :: At(x, j) == At(y, j)
  }

  /** `x` comes first when the first position where the infinite lists differ is smaller in `x`. */
  ghost predicate Before(x: seq<int>, y: seq<int>) {
    exists n: nat :: AgreeBelow(x, y, n) && At(x, n) < At(y, n)
  }

  /** Trailing zeros removed. */
  function Trim(x: seq<int>): seq<int> {
    if x == [] || x[|x| - 1] != 0 then x else Trim(x[..|x| - 1])
  }

  // ----- proofs -----

  lemma {:induction false} OrderPad(x: seq<int>, y: seq<int>, n: nat)
    ensures Order(x + Zeros(n), y) == Order(x, y)
    decreases |x| + |y| + n
  {
    var p := x + Zeros(n);
    if p == [] {
      assert x == p;
    } else if x == [] {
      assert p[1..] == Zeros(n - 1) == [] + Zeros(n - 1);
      if y == [] {
        OrderPad([], [], n - 1);
      } else if Head(y) == 0 {
        OrderPad([], Rest(y), n - 1);
      }
    } else {
      assert p[1..] == x[1..] + Zeros(n);
      if Head(x) == Head(y) {
        OrderPad(x[1..], Rest(y), n);
      }
    }
  }

  lemma {:induction false} OrderFlip(x: seq<int>, y: seq<int>)
    ensures Order(y, x) == -Order(x, y) && -1 <= Order(x, y) <= 1
    decreases |x| + |y|
  {
    if (x != [] || y != []) && Head(x) == Head(y) {
      OrderFlip(Rest(x), Rest(y));
    }
  }

  lemma {:induction false} OrderOfEqualLengths(x: seq<int>, y: seq<int>)
    requires |x| == |y|
    ensures Order(x, y) == (if ListLess(y, x) then 1 else 0) - (if ListLess(x, y) then 1 else 0)
  {
    if x != [] && x[0] == y[0] {
      OrderOfEqualLengths(x[1..], y[1..]);
    }
  }

  lemma OrderOfCardinal(x: seq<int>, y: seq<int>)
    ensures var (left, right) := Cardinal(x, y);
            (if ListLess(right, left) then 1 else 0) - (if ListLess(left, right) then 1 else 0) == Order(x, y)
  {
    var (left, right) := Cardinal(x, y);
    OrderOfEqualLengths(left, right);
    if |x| > |y| {
      OrderPad(y, x, |x| - |y|);
      OrderFlip(x, y);
      OrderFlip(left, right);
    } else if |x| < |y| {
      OrderPad(x, y, |y| - |x|);
    }
  }

  /** Padding only to the longer of the two agrees with comparing the infinite zero-extended lists. */
  lemma CompareIsOrder(a: string, b: string)
    ensures Compare(a, b) == Order(Parse(a), Parse(b))
  {
    OrderOfCardinal(Parse(a), Parse(b));
  }

  lemma {:induction false} OrderTransitive(x: seq<int>, y: seq<int>, z: seq<int>)
    requires Order(x, y) <= 0 && Order(y, z) <= 0
    ensures Order(x, z) <= 0
    ensures Order(x, z) == 0 ==> Order(x, y) == 0 && Order(y, z) == 0
    decreases |x| + |y| + |z|
  {
    if x == [] && y == [] && z == [] {
    } else if Head(x) == Head(y) == Head(z) {
      OrderTransitive(Rest(x), Rest(y), Rest(z));
    }
  }

  lemma AgreeTails(x: seq<int>, y: seq<int>, n: nat)
    requires Head(x) == Head(y)
    ensures AgreeBelow(x, y, n + 1) <==> AgreeBelow(Rest(x), Rest(y), n)
  {
    forall j: nat ensures At(x, j + 1) == At(Rest(x), j) && At(y, j + 1) == At(Rest(y), j) {
    }
    if AgreeBelow(x, y, n + 1) {
      forall j: nat | j < n ensures At(Rest(x), j) == At(Rest(y), j) {
        assert At(x, j + 1) == At(y, j + 1);
      }
    }
    if AgreeBelow(Rest(x), Rest(y), n) {
      forall j: nat | j < n + 1 ensures At(x, j) == At(y, j) {
        if j > 0 {
          assert At(Rest(x), j - 1) == At(Rest(y), j - 1);
        }
      }
    }
  }

  lemma BeforeTails(x: seq<int>, y: seq<int>)
    requires Head(x) == Head(y)
    ensures Before(x, y) <==> Before(Rest(x), Rest(y))
  {
    if Before(Rest(x), Rest(y)) {
      var n: nat :| AgreeBelow(Rest(x), Rest(y), n) && At(Rest(x), n) < At(Rest(y), n);
      AgreeTails(x, y, n);
    }
    if Before(x, y) {
      var n: nat :| AgreeBelow(x, y, n) && At(x, n) < At(y, n);
      AgreeTails(x, y, n - 1);
    }
  }

  lemma {:induction false} OrderIsBefore(x: seq<int>, y: seq<int>)
    ensures Order(x, y) < 0 <==> Before(x, y)
    decreases |x| + |y|
  {
    if x == [] && y == [] {
    } else if Head(x) == Head(y) {
      OrderIsBefore(Rest(x), Rest(y));
      BeforeTails(x, y);
    } else if Head(x) < Head(y) {
      assert AgreeBelow(x, y, 0);
    }
  }

  lemma {:induction false} TrimPads(x: seq<int>)
    ensures |Trim(x)| <= |x| && x == Trim(x) + Zeros(|x| - |Trim(x)|)
    ensures Trim(x) == [] || Trim(x)[|Trim(x)| - 1] != 0
  {
    if x != [] && x[|x| - 1] == 0 {
      TrimPads(x[..|x| - 1]);
      assert x == x[..|x| - 1] + [0];
    }
  }

  lemma {:induction false} OrderOfTrimmed(x: seq<int>, y: seq<int>)
    requires x == [] || x[|x| - 1] != 0
    requires y == [] || y[|y| - 1] != 0
    requires Order(x, y) == 0
    ensures x == y
    decreases |x| + |y|
  {
    if x != [] || y != [] {
      assert Head(x) == Head(y);
      OrderOfTrimmed(Rest(x), Rest(y));
      assert x != [] && y != [];
      assert x == [x[0]] + x[1..] && y == [y[0]] + y[1..];
    }
  }

  lemma {:induction false} OrderReflexive(x: seq<int>)
    ensures Order(x, x) == 0
  {
    if x != [] {
      OrderReflexive(x[1..]);
    }
  }

  lemma OrderOfTrims(x: seq<int>, y: seq<int>)
    ensures Order(x, y) == Order(Trim(x), Trim(y))
  {
    var (tx, ty) := (Trim(x), Trim(y));
    TrimPads(x);
    TrimPads(y);
    OrderPad(tx, y, |x| - |tx|);
    OrderFlip(tx, y);
    OrderPad(ty, tx, |y| - |ty|);
    OrderFlip(ty, tx);
  }

  /** Equal exactly when the lists agree after dropping trailing zeros. */
  lemma OrderZero(x: seq<int>, y: seq<int>)
    ensures Order(x, y) == 0 <==> Trim(x) == Trim(y)
  {
    OrderOfTrims(x, y);
    TrimPads(x);
    TrimPads(y);
    if Order(Trim(x), Trim(y)) == 0 {
      OrderOfTrimmed(Trim(x), Trim(y));
    }
    OrderReflexive(Trim(x));
  }

  /** compare_version is a total preorder on all strings, whatever the three lengths. */
  lemma CompareTotalPreorder(a: string, b: string, c: string)
    ensures Compare(a, b) in {-1, 0, 1} && Compare(b, a) == -Compare(a, b) && Compare(a, a) == 0
    ensures Compare(a, b) <= 0 && Compare(b, c) <= 0 ==> Compare(a, c) <= 0
    ensures Compare(a, b) <= 0 && Compare(b, c) < 0 ==> Compare(a, c) < 0
    ensures Compare(a, b) < 0 && Compare(b, c) <= 0 ==> Compare(a, c) < 0
    ensures Compare(a, b) == 0 ==> Compare(a, c) == Compare(b, c)
  {
    var (x, y, z) := (Parse(a), Parse(b), Parse(c));
    CompareIsOrder(a, b);
    CompareIsOrder(b, a);
    CompareIsOrder(b, c);
    CompareIsOrder(a, c);
    CompareIsOrder(a, a);
    OrderLaws(x, y, z);
  }

  lemma OrderLaws(x: seq<int>, y: seq<int>, z: seq<int>)
    ensures Order(x, y) in {-1, 0, 1} && Order(y, x) == -Order(x, y) && Order(x, x) == 0
    ensures Order(x, y) <= 0 && Order(y, z) <= 0 ==> Order(x, z) <= 0
    ensures Order(x, y) <= 0 && Order(y, z) < 0 ==> Order(x, z) < 0
    ensures Order(x, y) < 0 && Order(y, z) <= 0 ==> Order(x, z) < 0
    ensures Order(x, y) == 0 ==> Order(x, z) == Order(y, z)
  {
    OrderFlip(x, y);
    OrderFlip(y, z);
    OrderFlip(x, z);
    OrderReflexive(x);
    if Order(x, y) <= 0 && Order(y, z) <= 0 {
      OrderTransitive(x, y, z);
    }
    if Order(y, x) <= 0 && Order(x, z) <= 0 {
      OrderTransitive(y, x, z);
    }
    if Order(x, y) == 0 && Order(z, x) <= 0 {
      OrderTransitive(z, x, y);
    }
    if Order(x, y) == 0 && Order(z, y) <= 0 {
      OrderTransitive(z, y, x);
    }
  }

  /** The sign of the comparison, read off the infinite zero-extended lists. */
  lemma CompareMeaning(a: string, b: string)
    ensures Compare(a, b) < 0 <==> Before(Parse(a), Parse(b))
    ensures Compare(a, b) > 0 <==> Before(Parse(b), Parse(a))
    ensures Compare(a, b) == 0 <==> Trim(Parse(a)) == Trim(Parse(b))
  {
    CompareIsOrder(a, b);
    OrderIsBefore(Parse(a), Parse(b));
    OrderIsBefore(Parse(b), Parse(a));
    OrderFlip(Parse(a), Parse(b));
    OrderZero(Parse(a), Parse(b));
  }

  // ----- zero -----

  lemma {:induction false} NonNegativeOrder(x: seq<int>)
    requires NonNegative(x)
    ensures Order(x, []) >= 0
  {
    if x != [] && x[0] == 0 {
      NonNegativeOrder(x[1..]);
    }
  }

  /** `0.0.0` compares like zero. */
  lemma ZeroVersion(version: string)
    ensures Compare(version, "0.0.0") >= 0 <==> Order(Parse(version), []) >= 0
  {
    var zeros := ["0", "0", "0"];
    assert Join(zeros, ".") == "0.0.0" && Replace("0.0.0", '-', '.') == "0.0.0";
    SplitJoin(zeros, ".");
    PyIntOfDecimal(0);
    assert Decimal(0) == "0" && Parse("0.0.0") == [] + Zeros(3);
    CompareIsOrder(version, "0.0.0");
    OrderFlip(Parse(version), Parse("0.0.0"));
    OrderPad([], Parse(version), 3);
    OrderFlip(Parse(version), []);
  }

  // ----- blanks around a version -----

  lemma {:induction false} StripTrailing(part: string, c: char)
    requires IsSpace(c)
    ensures Strip(part + [c]) == Strip(part)
    decreases |part|
  {
    var s := part + [c];
    if part == "" {
      assert s[1..] == "";
    } else if IsSpace(part[0]) {
      assert s[1..] == part[1..] + [c];
      StripTrailing(part[1..], c);
    } else {
      assert s[..|s| - 1] == part;
    }
  }

  lemma SameComponent(p: string, q: string)
    requires Strip(p) == Strip(q)
    ensures Component(p) == Component(q)
  {
  }

  lemma SameComponents(front: seq<string>, last: string, c: char)
    requires IsSpace(c)
    ensures Components(front + [last + [c]]) == Components(front + [last])
  {
    StripTrailing(last, c);
    SameComponent(last + [c], last);
  }

  lemma ParseLead(s: string, c: char)
    requires IsSpace(c)
    ensures Parse([c] + s) == Parse(s)
  {
    var t := Replace(s, '-', '.');
    assert Replace([c] + s, '-', '.') == [c] + t;
    var p := SplitOn(t, ".");
    assert ([c] + p[0])[1..] == p[0];
    SameComponent([c] + p[0], p[0]);
  }

  lemma ParseTrail(s: string, c: char)
    requires IsSpace(c)
    ensures Parse(s + [c]) == Parse(s)
  {
    var t := Replace(s, '-', '.');
    assert Replace(s + [c], '-', '.') == t + [c];
    var p := SplitOn(t, ".");
    var (front, last) := (p[..|p| - 1], p[|p| - 1]);
    assert p == front + [last];
    JoinSplit(t, ".");
    SplitPieces(t, '.');
    SplitTrail(front, last, '.', c);
    SameComponents(front, last, c);
  }

  lemma {:induction false} ParseStrip(s: string)
    ensures Parse(Strip(s)) == Parse(s)
    decreases |s|
  {
    if s != "" {
      if IsSpace(s[0]) {
        assert s == [s[0]] + s[1..];
        ParseLead(s[1..], s[0]);
        ParseStrip(s[1..]);
      } else if IsSpace(s[|s| - 1]) {
        assert s == s[..|s| - 1] + [s[|s| - 1]];
        ParseTrail(s[..|s| - 1], s[|s| - 1]);
        ParseStrip(s[..|s| - 1]);
      }
    }
  }

  /** Blanks around a version do not change how it compares. */
  lemma CompareStrip(v: string, s: string)
    ensures Compare(v, Strip(s)) == Compare(v, s)
  {
    ParseStrip(s);
  }

  predicate AtMost(a: string, b: string) {
    Compare(a, b) <= 0
  }

  lemma AtMostIsTotalPreorder()
    ensures TotalPreorder(AtMost)
  {
    forall a, b, c
      ensures AtMost(a, b) || AtMost(b, a)
      ensures AtMost(a, b) && AtMost(b, c) ==> AtMost(a, c)
    {
      CompareTotalPreorder(a, b, c);
    }
  }
}
