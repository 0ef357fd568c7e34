// Conjunctions of the comparators `>`, `>=`, `<` and `<=` under compare_version
// (f8a_worker/solver.py): when one is satisfiable, and what it implies.
module Bounds {
  import opened Versions
  import opened Dependencies

  predicate IsLower(op: Op) {
    op in {GT, GTE}
  }

  predicate IsUpper(op: Op) {
    op in {LT, LTE}
  }

  predicate IsBound(op: Op) {
    IsLower(op) || IsUpper(op)
  }

  ghost predicate Bounded(pairs: seq<Spec>) {
    forall p | p in pairs :: p.Pair? && IsBound(p.op)
  }

  predicate AllHold(version: string, specs: seq<Spec>) {
    forall s | s in specs :: Accepts(version, s)
  }

  /** A lower and an upper bound without a version between them. */
  predicate Clash(p: Spec, q: Spec) {
    && p.Pair? && q.Pair? && IsLower(p.op) && IsUpper(q.op)
    && (Compare(p.version, q.version) > 0 || (Compare(p.version, q.version) == 0 && (p.op == GT || q.op == LT)))
  }

  predicate Contradictory(pairs: seq<Spec>) {
    exists p, q :: p in pairs && q in pairs && Clash(p, q)
  }

  /** The bound that holds exactly where the given one does not. */
  function Negated(op: Op): (r: Op)
    requires IsBound(op)
    ensures IsBound(r)
  {
    match op
    case GTE => LT
    case GT => LTE
    case LTE => GT
    case LT => GTE
  }

  /** Read off the list: adding the negated comparator makes two bounds clash. */
  predicate Forced(pairs: seq<Spec>, op: Op, bound: string)
  {
    match op
    case EQ1 | EQ2 => Refuted(pairs, LT, bound) && Refuted(pairs, GT, bound)
    case NEQ => Refuted(pairs, LTE, bound) || Refuted(pairs, GTE, bound)
    case _ => Refuted(pairs, Negated(op), bound)
  }

  predicate Refuted(pairs: seq<Spec>, op: Op, bound: string) {
    Contradictory(pairs + [Pair(op, bound)])
  }

  // ----- the order is dense -----

  lemma {:induction false} JustAbove(x: seq<int>, y: seq<int>, n: nat)
    requires Order(x, y) < 0 && |x| + n >= |y|
    ensures Order(x + Zeros(n) + [1], y) < 0
    decreases |x| + |y| + n
  {
    var z := x + Zeros(n) + [1];
    if x != [] {
      assert z[1..] == x[1..] + Zeros(n) + [1];
      if Head(x) == Head(y) {
        JustAbove(x[1..], Rest(y), n);
      }
    } else {
      assert n > 0 && z[0] == 0 && z[1..] == [] + Zeros(n - 1) + [1];
      if Head(y) == 0 {
        JustAbove([], Rest(y), n - 1);
      }
    }
  }

  /** The version with `n` zero parts added. */
  function Padded(version: string, n: nat): string {
    if n == 0 then version else Padded(version, n - 1) + ".0"
  }

  lemma {:induction false} ParsePadded(version: string, n: nat)
    ensures Parse(Padded(version, n)) == Parse(version) + Zeros(n)
  {
    if n == 0 {
      assert Parse(version) + Zeros(0) == Parse(version);
    } else {
      var shorter := Padded(version, n - 1);
      ParsePadded(version, n - 1);
      ParseExtension(shorter, '.', "0");
      DigitComponent(0, "0");
      ParsePart("0");
      assert shorter + ".0" == shorter + ['.'] + "0";
      assert Zeros(n) == Zeros(n - 1) + [0];
    }
  }

  /** Between two versions that differ lies a third. */
  lemma Dense(a: string, b: string)
    requires Compare(a, b) < 0
    ensures exists w :: Compare(a, w) < 0 && Compare(w, b) < 0
  {
    var n := |Parse(b)|;
    var padded := Padded(a, n);
    var w := padded + ".1";
    ParsePadded(a, n);
    ParseNeighbours(w);
    ParseExtension(padded, '.', "1");
    assert w == padded + ['.'] + "1";
    CompareIsOrder(a, b);
    CompareIsOrder(w, b);
    JustAbove(Parse(a), Parse(b), n);
    Neighbours(padded);
    CompareIsOrder(a, padded);
    OrderPad(Parse(a), Parse(a), n);
    OrderFlip(Parse(a), Parse(padded));
    OrderReflexive(Parse(a));
    CompareTotalPreorder(a, padded, w);
    CompareTotalPreorder(padded, w, a);
  }

  // ----- satisfiable conjunctions -----

  /** Every version that satisfies `p` satisfies the bound `q` of the same direction. */
  predicate AsStrict(p: Spec, q: Spec)
    requires p.Pair? && q.Pair?
  {
    var c := Compare(p.version, q.version);
    if IsLower(p.op) then c > 0 || (c == 0 && (p.op == GT || q.op == GTE))
    else c < 0 || (c == 0 && (p.op == LT || q.op == LTE))
  }

  ghost predicate Strictest(p: Spec, pairs: seq<Spec>, lower: bool)
    requires Bounded(pairs)
  {
    p in pairs && IsLower(p.op) == lower && forall q | q in pairs && IsLower(q.op) == lower :: AsStrict(p, q)
  }

  lemma AsStrictLaws(p: Spec, q: Spec, r: Spec)
    requires p.Pair? && q.Pair? && r.Pair? && IsBound(p.op) && IsBound(q.op) && IsBound(r.op)
    requires IsLower(p.op) == IsLower(q.op) == IsLower(r.op)
    ensures AsStrict(p, p) && (AsStrict(p, q) || AsStrict(q, p))
    ensures AsStrict(p, q) && AsStrict(q, r) ==> AsStrict(p, r)
  {
    CompareTotalPreorder(p.version, q.version, r.version);
    CompareTotalPreorder(r.version, q.version, p.version);
    CompareTotalPreorder(q.version, r.version, p.version);
  }

  lemma {:induction false} StrictestExists(pairs: seq<Spec>, lower: bool)
    requires Bounded(pairs)
    ensures (forall q | q in pairs :: IsLower(q.op) != lower) || exists p :: Strictest(p, pairs, lower)
  {
    if pairs != [] {
      var (p, rest) := (pairs[0], pairs[1..]);
      assert pairs == [p] + rest;
      StrictestExists(rest, lower);
      if IsLower(p.op) == lower {
        AsStrictLaws(p, p, p);
        if forall q | q in rest :: IsLower(q.op) != lower {
          assert Strictest(p, pairs, lower);
        } else {
          var s :| Strictest(s, rest, lower);
          StrictestCons(p, s, rest, lower);
        }
      } else if exists s :: Strictest(s, rest, lower) {
        var s :| Strictest(s, rest, lower);
        assert Strictest(s, pairs, lower);
      }
    }
  }

  lemma StrictestCons(p: Spec, s: Spec, rest: seq<Spec>, lower: bool)
    requires Bounded([p] + rest) && IsLower(p.op) == lower && Bounded(rest) && Strictest(s, rest, lower)
    ensures exists t :: Strictest(t, [p] + rest, lower)
  {
    AsStrictLaws(p, s, s);
    forall q | q in rest && IsLower(q.op) == lower ensures AsStrict(p, s) ==> AsStrict(p, q) {
      AsStrictLaws(p, s, q);
    }
    var t := if AsStrict(p, s) then p else s;
    assert forall q | q in [p] + rest :: q == p || q in rest;
    AsStrictLaws(t, t, t);
    assert Strictest(t, [p] + rest, lower);
  }

  /** A version between two bounds that do not clash. */
  lemma BetweenBounds(p: Spec, q: Spec)
    requires p.Pair? && q.Pair? && IsLower(p.op) && IsUpper(q.op) && !Clash(p, q)
    ensures exists v :: Accepts(v, p) && Accepts(v, q)
  {
    CompareTotalPreorder(p.version, q.version, p.version);
    if Compare(p.version, q.version) == 0 {
      assert Accepts(p.version, p) && Accepts(p.version, q);
    } else {
      Dense(p.version, q.version);
      var w :| Compare(p.version, w) < 0 && Compare(w, q.version) < 0;
      CompareTotalPreorder(p.version, w, q.version);
      CompareTotalPreorder(w, q.version, w);
      assert Accepts(w, p) && Accepts(w, q);
    }
  }

  lemma Satisfiable(pairs: seq<Spec>)
    requires Bounded(pairs) && !Contradictory(pairs)
    ensures exists v :: AllHold(v, pairs)
  {
    StrictestExists(pairs, true);
    StrictestExists(pairs, false);
    var lows := exists p :: Strictest(p, pairs, true);
    var highs := exists p :: Strictest(p, pairs, false);
    if lows && highs {
      var p :| Strictest(p, pairs, true);
      var q :| Strictest(q, pairs, false);
      BetweenBounds(p, q);
      var v :| Accepts(v, p) && Accepts(v, q);
      FromStrictest(pairs, p, v, true);
      FromStrictest(pairs, q, v, false);
      assert AllHold(v, pairs);
    } else if lows || highs {
      var p :| Strictest(p, pairs, lows);
      Neighbours(p.version);
      var v := p.version + if lows then ".1" else ".rc";
      FromStrictest(pairs, p, v, lows);
      assert AllHold(v, pairs);
    } else {
      assert AllHold("", pairs);
    }
  }

  lemma FromStrictest(pairs: seq<Spec>, p: Spec, v: string, lower: bool)
    requires Bounded(pairs) && Strictest(p, pairs, lower) && Accepts(v, p)
    ensures forall q | q in pairs && IsLower(q.op) == lower :: Accepts(v, q)
  {
    forall q | q in pairs && IsLower(q.op) == lower ensures Accepts(v, q) {
      CompareTotalPreorder(v, p.version, q.version);
      CompareTotalPreorder(q.version, p.version, v);
      CompareTotalPreorder(v, q.version, v);
    }
  }

  lemma ClashRefutes(p: Spec, q: Spec, v: string)
    requires Clash(p, q)
    ensures !(Accepts(v, p) && Accepts(v, q))
  {
    CompareTotalPreorder(p.version, v, q.version);
    CompareTotalPreorder(v, q.version, p.version);
    CompareTotalPreorder(v, p.version, q.version);
  }

  /** Some version satisfies a list of bounds exactly when no two of them clash. */
  lemma SatisfiableExact(pairs: seq<Spec>)
    requires Bounded(pairs)
    ensures (exists v :: AllHold(v, pairs)) <==> !Contradictory(pairs)
  {
    if !Contradictory(pairs) {
      Satisfiable(pairs);
    } else {
      var p, q :| p in pairs && q in pairs && Clash(p, q);
      forall v ensures !AllHold(v, pairs) {
        ClashRefutes(p, q, v);
      }
    }
  }

  // ----- implied comparators -----

  lemma RefutedExact(pairs: seq<Spec>, op: Op, bound: string)
    requires Bounded(pairs) && IsBound(op)
    ensures Refuted(pairs, op, bound) <==> forall v | AllHold(v, pairs) :: !Holds(op, Compare(v, bound))
  {
    var more := pairs + [Pair(op, bound)];
    SatisfiableExact(more);
    assert more[|pairs|] == Pair(op, bound);
    forall v ensures AllHold(v, more) <==> AllHold(v, pairs) && Holds(op, Compare(v, bound)) {
      assert forall p | p in pairs :: p in more;
      assert forall p | p in more :: p in pairs || p == Pair(op, bound);
      assert Accepts(v, Pair(op, bound)) <==> Holds(op, Compare(v, bound));
    }
  }

  lemma Opposite(v: string, bound: string)
    ensures forall op | IsBound(op) :: Holds(Negated(op), Compare(v, bound)) <==> !Holds(op, Compare(v, bound))
    ensures Holds(EQ1, Compare(v, bound)) <==> !Holds(LT, Compare(v, bound)) && !Holds(GT, Compare(v, bound))
  {
    CompareTotalPreorder(v, bound, v);
  }

  lemma HoldsBetween(pairs: seq<Spec>, v: string, x: string, w: string)
    requires Bounded(pairs) && AllHold(v, pairs) && AllHold(w, pairs)
    requires Compare(v, x) <= 0 && Compare(x, w) <= 0
    ensures AllHold(x, pairs)
  {
    forall p | p in pairs ensures Accepts(x, p) {
      AcceptsConvex(p, v, x, w);
    }
  }

  /** Versions on both sides of `bound` satisfy the list only if `bound` does. */
  lemma ExclusionImplied(pairs: seq<Spec>, bound: string)
    requires Bounded(pairs) && !AllHold(bound, pairs)
    ensures Forced(pairs, NEQ, bound)
  {
    RefutedExact(pairs, LTE, bound);
    RefutedExact(pairs, GTE, bound);
    if !Forced(pairs, NEQ, bound) {
      var v :| AllHold(v, pairs) && Holds(LTE, Compare(v, bound));
      var w :| AllHold(w, pairs) && Holds(GTE, Compare(w, bound));
      CompareTotalPreorder(bound, w, bound);
      HoldsBetween(pairs, v, bound, w);
    }
  }

  /** A list of bounds implies a comparator, of any operator, exactly when it is forced. */
  lemma ImpliedExact(pairs: seq<Spec>, op: Op, bound: string)
    requires Bounded(pairs)
    ensures (forall v | AllHold(v, pairs) :: Holds(op, Compare(v, bound))) <==> Forced(pairs, op, bound)
  {
    forall o | IsBound(o) ensures Refuted(pairs, o, bound) <==> forall v | AllHold(v, pairs) :: !Holds(o, Compare(v, bound)) {
      RefutedExact(pairs, o, bound);
    }
    forall v ensures Holds(EQ1, Compare(v, bound)) <==> !Holds(LT, Compare(v, bound)) && !Holds(GT, Compare(v, bound)) {
      Opposite(v, bound);
    }
    if op == NEQ {
      if forall v | AllHold(v, pairs) :: Holds(op, Compare(v, bound)) {
        CompareTotalPreorder(bound, bound, bound);
        ExclusionImplied(pairs, bound);
      }
    } else if IsBound(op) {
      forall v ensures Holds(Negated(op), Compare(v, bound)) <==> !Holds(op, Compare(v, bound)) {
        Opposite(v, bound);
      }
    }
  }
}
