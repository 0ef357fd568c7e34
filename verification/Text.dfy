// The string operations the modelled code relies on: membership of a
// substring, str.split, str.join, str.replace of one character, str.count of
// one character, and the decimal forms of integers.
module Text {
  import opened Common

  /** `sub in s`. */
  predicate Contains(s: string, sub: string) {
    if |s| < |sub| then false
    else sub <= s || (s != "" && Contains(s[1..], sub))
  }

  /** No character of `s` is in `bad`. */
  predicate FreeOf(s: string, bad: set<char>) {
    forall i | 0 <= i < |s| :: s[i] !in bad
  }

  /** `s.split(sep)`: leftmost, non-overlapping occurrences of `sep`. */
  function SplitOn(s: string, sep: string): (parts: seq<string>)
    requires sep != ""
    ensures |parts| >= 1
    ensures |parts| > 1 <==> Contains(s, sep)
  {
    if |s| < |sep| then [s]
    else if sep <= s then [""] + SplitOn(s[|sep|..], sep)
    else
      var rest := SplitOn(s[1..], sep);
      [[s[0]] + rest[0]] + rest[1..]
  }

  /** `sep.join(parts)`. */
  function Join(parts: seq<string>, sep: string): string {
    if parts == [] then ""
    else if |parts| == 1 then parts[0]
    else parts[0] + sep + Join(parts[1..], sep)
  }

  /** `s.replace(from, to)` for single characters. */
  function Replace(s: string, from: char, to: char): (r: string)
    ensures |r| == |s|
    ensures forall i | 0 <= i < |s| :: r[i] == if s[i] == from then to else s[i]
  {
    seq(|s|, i requires 0 <= i < |s| => if s[i] == from then to else s[i])
  }

  /** `s.count(c)`. */
  function Count(s: string, c: char): nat {
    if s == "" then 0 else (if s[0] == c then 1 else 0) + Count(s[1..], c)
  }

  // ----- splitting and joining -----

  /** A text without the separator's first character, followed by the separator, is its own first piece. */
  lemma {:induction false} SplitAfterPiece(piece: string, sep: string, rest: string)
    requires sep != "" && FreeOf(piece, {sep[0]})
    ensures SplitOn(piece + sep + rest, sep) == [piece] + SplitOn(rest, sep)
  {
    var s := piece + sep + rest;
    if piece == "" {
      assert s == sep + rest;
      assert s[|sep|..] == rest;
    } else {
      assert s[0] == piece[0] && !(sep <= s);
      assert s[1..] == piece[1..] + sep + rest;
      SplitAfterPiece(piece[1..], sep, rest);
      assert [piece[0]] + piece[1..] == piece;
    }
  }

  lemma {:induction false} SplitFree(piece: string, sep: string)
    requires sep != "" && FreeOf(piece, {sep[0]})
    ensures SplitOn(piece, sep) == [piece] && !Contains(piece, sep)
  {
    if |piece| >= |sep| {
      assert piece[0] != sep[0];
      SplitFree(piece[1..], sep);
      assert [piece[0]] + piece[1..] == piece;
    }
  }

  /** Splitting undoes joining when no piece holds the separator's first character. */
  lemma {:induction false} SplitJoin(parts: seq<string>, sep: string)
    requires sep != "" && parts != []
    requires forall p | p in parts :: FreeOf(p, {sep[0]})
    ensures SplitOn(Join(parts, sep), sep) == parts
  {
    assert parts[0] in parts;
    if |parts| == 1 {
      SplitFree(parts[0], sep);
    } else {
      SplitAfterPiece(parts[0], sep, Join(parts[1..], sep));
      SplitJoin(parts[1..], sep);
      assert [parts[0]] + parts[1..] == parts;
    }
  }

  /** Joining undoes splitting, always. */
  lemma {:induction false} JoinSplit(s: string, sep: string)
    requires sep != ""
    ensures Join(SplitOn(s, sep), sep) == s
  {
    if |s| < |sep| {
    } else if sep <= s {
      JoinSplit(s[|sep|..], sep);
      assert sep + s[|sep|..] == s;
    } else {
      JoinSplit(s[1..], sep);
    }
  }

  /** At a one-character separator, the pieces are free of it and there is one more piece than separators. */
  lemma {:induction false} SplitPieces(s: string, c: char)
    ensures |SplitOn(s, [c])| == Count(s, c) + 1
    ensures forall p | p in SplitOn(s, [c]) :: FreeOf(p, {c})
  {
    if s != "" {
      SplitPieces(s[1..], c);
      var rest := SplitOn(s[1..], [c]);
      if s[0] != c {
        assert rest[0] in rest && FreeOf([s[0]] + rest[0], {c});
      }
    }
  }

  /** The last occurrence of a separator cuts a text in one way only. */
  lemma CutAtLast(a: string, b: string, a': string, b': string, c: char)
    requires a + [c] + b == a' + [c] + b'
    requires FreeOf(b, {c}) && FreeOf(b', {c})
    ensures a == a' && b == b'
  {
    var s, s' := a + [c] + b, a' + [c] + b';
    assert s[|a|] == c && s'[|a'|] == c;
    if |a| < |a'| {
      assert false;
    } else if |a| > |a'| {
      assert false;
    }
    assert a == s[..|a|] && a' == s'[..|a'|];
    assert b == s[|a| + 1..] && b' == s'[|a'| + 1..];
  }

  /** The first occurrence of a separator cuts a text in one way only. */
  lemma CutAtFirst(a: string, b: string, a': string, b': string, c: char)
    requires a + [c] + b == a' + [c] + b'
    requires FreeOf(a, {c}) && FreeOf(a', {c})
    ensures a == a' && b == b'
  {
    var s, s' := a + [c] + b, a' + [c] + b';
    assert s[|a|] == c && s'[|a'|] == c;
    if |a| < |a'| {
      assert false;
    } else if |a| > |a'| {
      assert false;
    }
    assert a == s[..|a|] && a' == s'[..|a'|];
    assert b == s[|a| + 1..] && b' == s'[|a'| + 1..];
  }

  /** `s.split(c, 1)` unpacked into two names; None when `c` does not occur. */
  function SplitOnce(s: string, c: char): Option<(string, string)> {
    if s == "" then None
    else if s[0] == c then Some(("", s[1..]))
    else
      match SplitOnce(s[1..], c)
      case None => None
      case Some((a, b)) => Some(([s[0]] + a, b))
  }

  lemma {:induction false} SplitOnceAfter(a: string, c: char, b: string)
    requires FreeOf(a, {c})
    ensures SplitOnce(a + [c] + b, c) == Some((a, b))
  {
    var s := a + [c] + b;
    if a == "" {
      assert s[1..] == b;
    } else {
      assert s[1..] == a[1..] + [c] + b;
      SplitOnceAfter(a[1..], c, b);
      assert [a[0]] + a[1..] == a;
    }
  }

  lemma {:induction false} JoinConcat(a: seq<string>, b: seq<string>, sep: string)
    requires a != [] && b != []
    ensures Join(a + b, sep) == Join(a, sep) + sep + Join(b, sep)
  {
    assert (a + b)[1..] == a[1..] + b;
    if |a| > 1 {
      JoinConcat(a[1..], b, sep);
      assert a[0] + sep + (Join(a[1..], sep) + sep + Join(b, sep)) == (a[0] + sep + Join(a[1..], sep)) + sep + Join(b, sep);
    }
  }

  /** A text does not hold a substring one of whose characters it lacks. */
  lemma {:induction false} LacksCharacter(s: string, sub: string, c: char)
    requires c in sub && FreeOf(s, {c})
    ensures !Contains(s, sub)
  {
    if |s| >= |sub| {
      var i :| 0 <= i < |sub| && sub[i] == c;
      assert s[i] != c;
      LacksCharacter(s[1..], sub, c);
    }
  }

  // ----- decimal numbers -----

  predicate IsDigit(c: char) {
    '0' <= c <= '9'
  }

  /** `s.isdigit()` over ASCII text. */
  predicate AllDigits(s: string) {
    s != "" && forall i | 0 <= i < |s| :: IsDigit(s[i])
  }

  /** The value of digits that may be separated by single underscores, as int() reads them. */
  function DigitsValue(s: string): Option<nat>
    decreases |s|
  {
    if s == "" || !IsDigit(s[|s| - 1]) then None
    else
      var digit := s[|s| - 1] as nat - '0' as nat;
      if |s| == 1 then Some(digit)
      else
        var front := s[..|s| - 1];
        var high := if front[|front| - 1] == '_' then front[..|front| - 1] else front;
        match DigitsValue(high)
        case None => None
        case Some(n) => Some(10 * n + digit)
  }

  predicate IsSpace(c: char) {
    c == ' ' || '\t' <= c <= '\r' || '\U{1c}' <= c <= '\U{1f}'
  }

  function Strip(s: string): string
    decreases |s|
  {
    if s == "" then ""
    else if IsSpace(s[0]) then Strip(s[1..])
    else if IsSpace(s[|s| - 1]) then Strip(s[..|s| - 1])
    else s
  }

  /** `int(s)` on ASCII text; None is the ValueError. */
  function PyInt(s: string): Option<int> {
    var t := Strip(s);
    if t == "" then None
    else if t[0] == '+' || t[0] == '-' then
      match DigitsValue(t[1..])
      case None => None
      case Some(n) => Some(if t[0] == '-' then -(n as int) else n as int)
    else
      match DigitsValue(t)
      case None => None
      case Some(n) => Some(n as int)
  }

  // ----- which texts int() reads -----

  /** Runs of digits joined by single underscores. */
  predicate DigitRuns(s: string) {
    forall run | run in SplitOn(s, "_") :: AllDigits(run)
  }

  /** The runs written one behind the other. */
  function Digits(s: string): string {
    Join(SplitOn(s, "_"), "")
  }

  function Power(n: nat): nat {
    if n == 0 then 1 else 10 * Power(n - 1)
  }

  /** Each digit counts with the power of ten of its position. */
  function Positional(digits: string): int {
    if digits == "" then 0
    else (digits[0] as int - '0' as int) * Power(|digits| - 1) + Positional(digits[1..])
  }

  /** A number as int() takes it, blanks around it removed: runs of digits, a sign before them or none. */
  predicate NumberText(t: string) {
    t != "" && DigitRuns(if t[0] in {'+', '-'} then t[1..] else t)
  }

  function NumberValue(t: string): int
    requires t != ""
  {
    if t[0] == '-' then -Positional(Digits(t[1..]))
    else Positional(Digits(if t[0] == '+' then t[1..] else t))
  }

  lemma {:induction false} PositionalSnoc(digits: string, d: char)
    ensures Positional(digits + [d]) == 10 * Positional(digits) + (d as int - '0' as int)
  {
    var all := digits + [d];
    if digits == "" {
      assert all == [d] && all[1..] == "";
    } else {
      assert all[0] == digits[0] && all[1..] == digits[1..] + [d];
      PositionalSnoc(digits[1..], d);
    }
  }

  /** The last run of a text stands at its end. */
  lemma LastRun(s: string) returns (init: seq<string>, last: string)
    ensures SplitOn(s, "_") == init + [last] && FreeOf(last, {'_'}) && forall p | p in init :: FreeOf(p, {'_'})
    ensures s == Join(init + [last], "_") == (if init == [] then "" else Join(init, "_") + "_") + last
    ensures Digits(s) == Join(init, "") + last
  {
    var p := SplitOn(s, "_");
    init, last := p[..|p| - 1], p[|p| - 1];
    assert p == init + [last];
    JoinSplit(s, "_");
    SplitPieces(s, '_');
    JoinEnd(init, last, "_");
    JoinEnd(init, last, "");
  }

  lemma JoinEnd(init: seq<string>, last: string, sep: string)
    ensures Join(init + [last], sep) == (if init == [] then "" else Join(init, sep) + sep) + last
  {
    if init != [] {
      JoinConcat(init, [last], sep);
    } else {
      assert init + [last] == [last];
    }
  }

  /** A character put behind a text ends up behind its last piece. */
  lemma SplitTrail(init: seq<string>, last: string, sep: char, c: char)
    requires c != sep && FreeOf(last, {sep}) && forall p | p in init :: FreeOf(p, {sep})
    ensures SplitOn(Join(init + [last], [sep]) + [c], [sep]) == init + [last + [c]]
  {
    if init == [] {
      assert init + [last] == [last] && init + [last + [c]] == [last + [c]];
    } else {
      JoinConcat(init, [last], [sep]);
      JoinConcat(init, [last + [c]], [sep]);
      Associate(Join(init, [sep]) + [sep], last, [c]);
    }
    SplitJoin(init + [last + [c]], [sep]);
  }

  /** Splitting a text at one of its separators splits both sides. */
  lemma SplitConcat(s: string, sep: char, t: string)
    ensures SplitOn(s + [sep] + t, [sep]) == SplitOn(s, [sep]) + SplitOn(t, [sep])
  {
    var (p, q) := (SplitOn(s, [sep]), SplitOn(t, [sep]));
    SplitPieces(s, sep);
    SplitPieces(t, sep);
    JoinSplit(s, [sep]);
    JoinSplit(t, [sep]);
    JoinConcat(p, q, [sep]);
    SplitJoin(p + q, [sep]);
  }

  /** A piece behind the last separator is the last piece. */
  lemma SplitEnd(front: string, sep: char, piece: string)
    requires FreeOf(piece, {sep})
    ensures SplitOn(front + [sep] + piece, [sep]) == SplitOn(front, [sep]) + [piece]
  {
    SplitConcat(front, sep, piece);
    SplitFree(piece, [sep]);
  }

  lemma LongerRun(init: seq<string>, last: string, d: char)
    requires last != "" && IsDigit(d)
    ensures (forall run | run in init + [last + [d]] :: AllDigits(run)) <==> forall run | run in init + [last] :: AllDigits(run)
  {
    assert AllDigits(last + [d]) <==> AllDigits(last) by {
      assert (last + [d])[..|last|] == last && (last + [d])[|last|] == d;
    }
    assert (init + [last])[|init|] == last && (init + [last + [d]])[|init|] == last + [d];
    assert forall run | run in init :: run in init + [last] && run in init + [last + [d]];
  }

  lemma NextDigit(front: string, d: char)
    requires front != "" && front[|front| - 1] != '_' && IsDigit(d)
    ensures DigitRuns(front + [d]) <==> DigitRuns(front)
    ensures Digits(front + [d]) == Digits(front) + [d]
  {
    var init, last := LastRun(front);
    assert last != "";
    SplitTrail(init, last, '_', d);
    LongerRun(init, last, d);
    JoinEnd(init, last + [d], "");
    Associate(Join(init, ""), last, [d]);
  }

  lemma NextRun(high: string, d: char)
    requires IsDigit(d)
    ensures DigitRuns(high + "_" + [d]) <==> DigitRuns(high)
    ensures Digits(high + "_" + [d]) == Digits(high) + [d]
  {
    var p := SplitOn(high, "_");
    SplitConcat(high, '_', [d]);
    SplitFree([d], "_");
    assert high + ['_'] + [d] == high + "_" + [d];
    JoinConcat(p, [[d]], "");
    assert [d] in p + [[d]] && forall run | run in p :: run in p + [[d]];
  }

  lemma NoDigitAtEnd(s: string)
    requires s == "" || !IsDigit(s[|s| - 1])
    ensures !DigitRuns(s)
  {
    var init, last := LastRun(s);
    assert (init + [last])[|init|] == last;
    assert last in SplitOn(s, "_");
    if last != "" {
      assert s[|s| - 1] == last[|last| - 1];
    }
    assert !AllDigits(last);
  }

  lemma OneDigit(d: char)
    requires IsDigit(d)
    ensures DigitRuns([d]) && Digits([d]) == [d] && Positional([d]) == d as int - '0' as int
  {
    SplitFree([d], "_");
    assert [[d]][0] == [d] && [d][1..] == "" && Power(0) == 1;
  }

  /** What stands before the last digit, without an underscore between. */
  function Higher(s: string): string
    requires |s| > 1
  {
    if s[|s| - 2] == '_' then s[..|s| - 2] else s[..|s| - 1]
  }

  lemma ValueStep(s: string)
    requires |s| > 1 && IsDigit(s[|s| - 1])
    ensures var (high, d) := (DigitsValue(Higher(s)), s[|s| - 1] as int - '0' as int);
            DigitsValue(s) == if high.None? then None else Some(10 * high.value + d)
  {
    var front := s[..|s| - 1];
    assert front[|front| - 1] == s[|s| - 2] && front[..|front| - 1] == s[..|s| - 2];
  }

  lemma RunsStep(s: string)
    requires |s| > 1 && IsDigit(s[|s| - 1])
    ensures DigitRuns(s) <==> DigitRuns(Higher(s))
    ensures Positional(Digits(s)) == 10 * Positional(Digits(Higher(s))) + (s[|s| - 1] as int - '0' as int)
  {
    var (high, d) := (Higher(s), s[|s| - 1]);
    PositionalSnoc(Digits(high), d);
    if s[|s| - 2] == '_' {
      assert s == high + "_" + [d];
      NextRun(high, d);
    } else {
      assert s == high + [d];
      NextDigit(high, d);
    }
  }

  /** Digits are read exactly when they are runs joined by single underscores, with their positional value. */
  lemma {:induction false} DigitsExact(s: string)
    ensures DigitsValue(s).Some? <==> DigitRuns(s)
    ensures DigitRuns(s) ==> DigitsValue(s) == Some(Positional(Digits(s)))
    decreases |s|
  {
    if s == "" || !IsDigit(s[|s| - 1]) {
      NoDigitAtEnd(s);
    } else if |s| == 1 {
      assert s == [s[0]];
      OneDigit(s[0]);
    } else {
      DigitsExact(Higher(s));
      ValueStep(s);
      RunsStep(s);
    }
  }

  predicate Blanks(s: string) {
    forall i | 0 <= i < |s| :: IsSpace(s[i])
  }

  /** What strip() removes are blanks, at both ends and all of them. */
  lemma {:induction false} StripExact(s: string) returns (lead: string, trail: string)
    ensures s == lead + Strip(s) + trail && Blanks(lead) && Blanks(trail)
    ensures Strip(s) == "" || (!IsSpace(Strip(s)[0]) && !IsSpace(Strip(s)[|Strip(s)| - 1]))
    decreases |s|
  {
    lead, trail := "", "";
    if s != "" && IsSpace(s[0]) {
      lead, trail := StripExact(s[1..]);
      assert s == [s[0]] + (lead + Strip(s) + trail);
      lead := [s[0]] + lead;
    } else if s != "" && IsSpace(s[|s| - 1]) {
      lead, trail := StripExact(s[..|s| - 1]);
      assert s == (lead + Strip(s) + trail) + [s[|s| - 1]];
      trail := trail + [s[|s| - 1]];
    }
  }

  /** int() reads a text exactly when, stripped, it is an optional sign and runs of digits joined by single
      underscores, and then gives its value. */
  lemma PyIntExact(s: string)
    ensures PyInt(s).Some? <==> NumberText(Strip(s))
    ensures NumberText(Strip(s)) ==> PyInt(s) == Some(NumberValue(Strip(s)))
  {
    var t := Strip(s);
    if t != "" {
      DigitsExact(t);
      DigitsExact(t[1..]);
      if t[0] in {'+', '-'} {
        DigitsExact(t[1..]);
      }
    }
  }

  lemma {:induction false} RunsOnly(runs: seq<string>, c: char)
    requires c in Join(runs, "_") && !IsDigit(c) && c != '_'
    ensures exists run :: run in runs && !AllDigits(run)
  {
    if c in runs[0] {
      assert runs[0] in runs;
    } else {
      assert |runs| > 1 && c in Join(runs[1..], "_");
      RunsOnly(runs[1..], c);
    }
  }

  lemma {:induction false} StripKeeps(s: string, c: char)
    requires c in s && !IsSpace(c)
    ensures c in Strip(s)
    decreases |s|
  {
    if IsSpace(s[0]) {
      StripKeeps(s[1..], c);
    } else if IsSpace(s[|s| - 1]) {
      assert s == s[..|s| - 1] + [s[|s| - 1]];
      StripKeeps(s[..|s| - 1], c);
    }
  }

  /** A text that holds any character but digits, underscores, signs and blanks is refused. */
  lemma OtherRefused(s: string, c: char)
    requires c in s && !IsDigit(c) && !IsSpace(c) && c !in {'_', '+', '-'}
    ensures PyInt(s) == None
  {
    PyIntExact(s);
    StripKeeps(s, c);
    var t := Strip(s);
    var body := if t[0] in {'+', '-'} then t[1..] else t;
    assert c in body by {
      assert t == [t[0]] + t[1..];
    }
    JoinSplit(body, "_");
    RunsOnly(SplitOn(body, "_"), c);
  }

  /** `str(n)` for a natural number. */
  function Decimal(n: nat): string {
    if n < 10 then [('0' as int + n) as char]
    else Decimal(n / 10) + [('0' as int + n % 10) as char]
  }

  lemma {:induction false} DigitsHaveValue(s: string)
    requires AllDigits(s)
    ensures DigitsValue(s).Some?
  {
    if |s| > 1 {
      assert IsDigit(s[|s| - 2]);
      DigitsHaveValue(s[..|s| - 1]);
    }
  }

  /** int() reads a run of digits as their plain, non-negative value. */
  lemma PyIntOfDigits(s: string)
    requires AllDigits(s)
    ensures DigitsValue(s).Some? && PyInt(s) == Some(DigitsValue(s).value)
  {
    DigitsHaveValue(s);
    assert IsDigit(s[0]) && IsDigit(s[|s| - 1]);
    assert Strip(s) == s;
  }

  lemma {:induction false} DecimalDigits(n: nat)
    ensures AllDigits(Decimal(n)) && DigitsValue(Decimal(n)) == Some(n)
  {
    if n >= 10 {
      DecimalDigits(n / 10);
      var high := Decimal(n / 10);
      assert Decimal(n)[..|high|] == high;
      assert IsDigit(high[|high| - 1]);
    }
  }

  /** int(str(n)) == n. */
  lemma PyIntOfDecimal(n: nat)
    ensures AllDigits(Decimal(n)) && PyInt(Decimal(n)) == Some(n)
  {
    DecimalDigits(n);
    PyIntOfDigits(Decimal(n));
  }
}
