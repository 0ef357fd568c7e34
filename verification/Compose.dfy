// DependencyParser.compose_sep (f8a_worker/solver.py) and reading its output back.
module Compose {
  import opened Common
  import opened Text
  import opened Dependencies
  import Npm

  function Texts(spec: seq<Spec>): seq<string>
    requires Flat(spec)
  {
    if spec == [] then []
    else
      assert spec[0] in spec;
      [OpText(spec[0].op) + spec[0].version] + Texts(spec[1..])
  }

  /** The joined comparators of each dependency called `name`, in order. */
  function Blocks(deps: seq<Dependency>, name: string, sep: string): seq<string>
    requires AllFlat(deps)
  {
    if deps == [] then []
    else
      assert deps[0] in deps;
      (if deps[0].name == name then [Join(Texts(deps[0].spec), sep)] else []) + Blocks(deps[1..], name, sep)
  }

  /** `result` maps exactly the names that occur to their joined blocks. */
  ghost predicate Composed(result: map<string, string>, deps: seq<Dependency>, sep: string)
    requires AllFlat(deps)
  {
    && (forall name :: name in result <==> Blocks(deps, name, sep) != [])
    && (forall name | name in result :: result[name] == Join(Blocks(deps, name, sep), sep))
  }

  /** What `[op + ver for op, ver in spec]` or joining it raises: an entry of another length does not unpack,
      a tuple and a list do not add up, and what two of a kind add up to is no text to join. */
  function SpecError(spec: seq<Spec>, odd: bool): Option<Error> {
    if spec == [] then (if odd then Some(TypeError) else None)
    else
      match spec[0]
      case Pair(_, _) => SpecError(spec[1..], odd)
      case Single(_) => Some(ValueError)
      case Conj(items) =>
        if |items| != 2 then Some(ValueError)
        else if items[0].Conj? != items[1].Conj? then Some(TypeError)
        else SpecError(spec[1..], true)
  }

  /** The first dependency that fails decides. */
  function FirstError(deps: seq<Dependency>): Option<Error> {
    if deps == [] then None
    else if SpecError(deps[0].spec, false).Some? then SpecError(deps[0].spec, false)
    else FirstError(deps[1..])
  }

  lemma {:induction false} ErrorsExactly(spec: seq<Spec>, odd: bool)
    ensures SpecError(spec, odd).None? <==> !odd && Flat(spec)
  {
    if spec != [] {
      assert spec == [spec[0]] + spec[1..];
      ErrorsExactly(spec[1..], odd);
      ErrorsExactly(spec[1..], true);
    }
  }

  /** Two lists or two tuples in one list: they add up, but not to a text. */
  predicate AddsUp(s: Spec) {
    s.Conj? && |s.items| == 2 && s.items[0].Conj? == s.items[1].Conj?
  }

  /** A spec raises at its first entry that is no pair and does not add up, ValueError when the entry has
      another length than two and TypeError otherwise; if there is none, joining raises TypeError. */
  lemma {:induction false} ErrorKinds(spec: seq<Spec>, k: nat, odd: bool)
    requires k <= |spec| && forall i | 0 <= i < k :: spec[i].Pair? || AddsUp(spec[i])
    requires k < |spec| ==> !spec[k].Pair? && !AddsUp(spec[k])
    ensures k < |spec| ==>
              SpecError(spec, odd) == Some(if spec[k].Conj? && |spec[k].items| == 2 then TypeError else ValueError)
    ensures k == |spec| ==>
              SpecError(spec, odd) == if odd || exists i :: 0 <= i < k && AddsUp(spec[i]) then Some(TypeError) else None
  {
    if k > 0 {
      ErrorKinds(spec[1..], k - 1, odd || AddsUp(spec[0]));
      assert forall i | 0 <= i < k - 1 :: spec[1..][i] == spec[i + 1];
    }
  }

  method ComposeSep(deps: seq<Dependency>, sep: string) returns (r: Result<map<string, string>>)
    ensures r.Ok? <==> AllFlat(deps)
    ensures r.Ok? ==> Composed(r.value, deps, sep)
    ensures r.Err? ==> FirstError(deps) == Some(r.error)
  {
    var result: map<string, string> := map[];
    assert deps[0..] == deps;
    for k := 0 to |deps|
      invariant AllFlat(deps[..k])
      invariant Composed(result, deps[..k], sep)
      invariant FirstError(deps[k..]) == FirstError(deps)
    {
      var dep := deps[k];
      TakeNext(deps, k);
      DropNext(deps, k);
      ErrorsExactly(dep.spec, false);
      assert dep in deps;
      var error := SpecError(dep.spec, false);
      if error.Some? {
        return Err(error.value);
      }
      var text := Join(Texts(dep.spec), sep);
      ComposeStep(result, deps[..k], dep, sep);
      result := result[dep.name := if dep.name !in result then text else result[dep.name] + sep + text];
    }
    assert deps[..|deps|] == deps;
    r := Ok(result);
  }

  lemma ComposeStep(result: map<string, string>, deps: seq<Dependency>, dep: Dependency, sep: string)
    requires AllFlat(deps) && Flat(dep.spec) && Composed(result, deps, sep)
    ensures var text := Join(Texts(dep.spec), sep);
            var next := result[dep.name := if dep.name !in result then text else result[dep.name] + sep + text];
            AllFlat(deps + [dep]) && Composed(next, deps + [dep], sep)
  {
    var text := Join(Texts(dep.spec), sep);
    var next := result[dep.name := if dep.name !in result then text else result[dep.name] + sep + text];
    forall name
      ensures name in next <==> Blocks(deps + [dep], name, sep) != []
      ensures name in next ==> next[name] == Join(Blocks(deps + [dep], name, sep), sep)
    {
      BlocksSnoc(deps, dep, name, sep);
      var blocks := Blocks(deps, name, sep);
      if name != dep.name {
        assert blocks + [] == blocks;
      } else if blocks == [] {
        assert blocks + [text] == [text];
      } else {
        JoinConcat(blocks, [text], sep);
      }
    }
  }

  lemma {:induction false} BlocksSnoc(deps: seq<Dependency>, dep: Dependency, name: string, sep: string)
    requires AllFlat(deps) && Flat(dep.spec)
    ensures Blocks(deps + [dep], name, sep) ==
            Blocks(deps, name, sep) + (if dep.name == name then [Join(Texts(dep.spec), sep)] else [])
  {
    if deps == [] {
      assert ([] + [dep])[1..] == [];
    } else {
      assert (deps + [dep])[1..] == deps[1..] + [dep];
      BlocksSnoc(deps[1..], dep, name, sep);
      Associate(if deps[0].name == name then [Join(Texts(deps[0].spec), sep)] else [], Blocks(deps[1..], name, sep),
                if dep.name == name then [Join(Texts(dep.spec), sep)] else []);
    }
  }

  // ----- reading back -----

  /** Comparators an npm-style reader can tell apart at `sep`. */
  predicate ReadableSpec(spec: seq<Spec>, sep: char) {
    forall s | s in spec :: s.Pair? && s.op != NEQ && Npm.PlainVersion(s.version) && FreeOf(s.version, {sep})
  }

  function ReadPieces(pieces: seq<string>): seq<Spec> {
    if pieces == [] then [] else [Npm.ParseTokens(pieces[0])] + ReadPieces(pieces[1..])
  }

  lemma {:induction false} ReadTexts(spec: seq<Spec>, sep: char)
    requires ReadableSpec(spec, sep) && sep !in {'<', '>', '=', '!'}
    ensures Flat(spec) && |Texts(spec)| == |spec| && ReadPieces(Texts(spec)) == spec
    ensures forall t | t in Texts(spec) :: FreeOf(t, {sep})
  {
    if spec != [] {
      var s := spec[0];
      assert s in spec;
      Npm.ReadBack(Npm.Cmp(s.op, s.version));
      ReadTexts(spec[1..], sep);
      assert Texts(spec)[1..] == Texts(spec[1..]);
      assert FreeOf(OpText(s.op) + s.version, {sep});
    }
  }

  lemma {:induction false} TextsConcat(a: seq<Spec>, b: seq<Spec>)
    requires Flat(a) && Flat(b)
    ensures Flat(a + b) && Texts(a + b) == Texts(a) + Texts(b)
  {
    if a == [] {
      assert a + b == b;
    } else {
      assert (a + b)[1..] == a[1..] + b;
      TextsConcat(a[1..], b);
      Associate([OpText(a[0].op) + a[0].version], Texts(a[1..]), Texts(b));
    }
  }

  /** The joined blocks are the joined comparators. */
  lemma {:induction false} BlocksAreComparators(deps: seq<Dependency>, name: string, sep: string)
    requires forall d | d in deps :: Flat(d.spec) && d.spec != []
    ensures Flat(Wanted(deps, name))
    ensures Join(Blocks(deps, name, sep), sep) == Join(Texts(Wanted(deps, name)), sep)
    ensures Blocks(deps, name, sep) == [] <==> Wanted(deps, name) == []
  {
    if deps != [] {
      var d := deps[0];
      assert d in deps;
      BlocksAreComparators(deps[1..], name, sep);
      var (rest, more) := (Blocks(deps[1..], name, sep), Wanted(deps[1..], name));
      if d.name == name {
        TextsConcat(d.spec, more);
        if rest == [] {
          assert d.spec + more == d.spec;
          assert [Join(Texts(d.spec), sep)] + rest == [Join(Texts(d.spec), sep)];
        } else {
          JoinConcat([Join(Texts(d.spec), sep)], rest, sep);
          JoinConcat(Texts(d.spec), Texts(more), sep);
        }
      } else {
        assert [] + rest == rest && [] + more == more;
      }
    }
  }

  /** Splitting the composed text of a name at the separator and reading the pieces returns, in order,
      every comparator given for that name. */
  lemma ComposeReadBack(deps: seq<Dependency>, name: string, sep: char)
    requires sep !in {'<', '>', '=', '!'}
    requires forall d | d in deps :: ReadableSpec(d.spec, sep) && d.spec != []
    requires exists d :: d in deps && d.name == name
    ensures AllFlat(deps)
    ensures Blocks(deps, name, [sep]) != []
    ensures ReadPieces(SplitOn(Join(Blocks(deps, name, [sep]), [sep]), [sep])) == Wanted(deps, name)
  {
    ComparatorsReadable(deps, name, sep);
    BlocksAreComparators(deps, name, [sep]);
    var all := Wanted(deps, name);
    ReadTexts(all, sep);
    SplitJoin(Texts(all), [sep]);
  }

  lemma {:induction false} ComparatorsReadable(deps: seq<Dependency>, name: string, sep: char)
    requires forall d | d in deps :: ReadableSpec(d.spec, sep) && d.spec != []
    ensures ReadableSpec(Wanted(deps, name), sep)
    ensures (exists d :: d in deps && d.name == name) ==> Wanted(deps, name) != []
  {
    if deps != [] {
      assert deps[0] in deps;
      ComparatorsReadable(deps[1..], name, sep);
      assert deps == [deps[0]] + deps[1..];
    }
  }
}
