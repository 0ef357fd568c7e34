// sorted(): a stable sort under a total preorder given as "at most".
module Sorting {

  ghost predicate TotalPreorder<T(!new)>(le: (T, T) -> bool) {
    && (forall x, y :: le(x, y) || le(y, x))
    && (forall x, y, z :: le(x, y) && le(y, z) ==> le(x, z))
  }

  ghost predicate Sorted<T>(s: seq<T>, le: (T, T) -> bool) {
    forall i, j | 0 <= i < j < |s| :: le(s[i], s[j])
  }

  /** Puts `x` in front of the first element it does not exceed. */
  function Insert<T>(x: T, s: seq<T>, le: (T, T) -> bool): seq<T> {
    if s == [] then [x]
    else if le(x, s[0]) then [x] + s
    else [s[0]] + Insert(x, s[1..], le)
  }

  function Sort<T>(s: seq<T>, le: (T, T) -> bool): seq<T> {
    if s == [] then [] else Insert(s[0], Sort(s[1..], le), le)
  }

  function Filter<T>(s: seq<T>, p: T -> bool): seq<T> {
    if s == [] then []
    else (if p(s[0]) then [s[0]] else []) + Filter(s[1..], p)
  }

  lemma {:induction false} InsertKeeps<T>(x: T, s: seq<T>, le: (T, T) -> bool)
    ensures multiset(Insert(x, s, le)) == multiset{x} + multiset(s)
  {
    if s != [] {
      assert s == [s[0]] + s[1..];
      if !le(x, s[0]) {
        InsertKeeps(x, s[1..], le);
      }
    }
  }

  lemma {:induction false} InsertSorted<T(!new)>(x: T, s: seq<T>, le: (T, T) -> bool)
    requires TotalPreorder(le) && Sorted(s, le)
    ensures Sorted(Insert(x, s, le), le)
  {
    if s != [] && !le(x, s[0]) {
      InsertSorted(x, s[1..], le);
      InsertKeeps(x, s[1..], le);
      var rest := Insert(x, s[1..], le);
      forall j | 0 <= j < |rest| ensures le(s[0], rest[j]) {
        assert rest[j] in multiset(rest);
        if rest[j] != x {
          assert rest[j] in s[1..];
        }
      }
    }
  }

  lemma {:induction false} SortKeeps<T>(s: seq<T>, le: (T, T) -> bool)
    ensures multiset(Sort(s, le)) == multiset(s) && |Sort(s, le)| == |s|
  {
    if s != [] {
      SortKeeps(s[1..], le);
      InsertKeeps(s[0], Sort(s[1..], le), le);
      assert s == [s[0]] + s[1..];
    }
    assert |multiset(Sort(s, le))| == |multiset(s)|;
  }

  /** The result is sorted and a permutation of the input. */
  lemma {:induction false} SortSorts<T(!new)>(s: seq<T>, le: (T, T) -> bool)
    requires TotalPreorder(le)
    ensures Sorted(Sort(s, le), le) && multiset(Sort(s, le)) == multiset(s)
  {
    if s != [] {
      SortSorts(s[1..], le);
      InsertSorted(s[0], Sort(s[1..], le), le);
      InsertKeeps(s[0], Sort(s[1..], le), le);
      assert s == [s[0]] + s[1..];
    }
  }

  /** The ends of the result are extremes of the input. */
  lemma SortEnds<T(!new)>(s: seq<T>, le: (T, T) -> bool)
    requires TotalPreorder(le) && s != []
    ensures var r := Sort(s, le);
            && |r| == |s| && r[0] in s && r[|r| - 1] in s
            && forall x | x in s :: le(r[0], x) && le(x, r[|r| - 1])
  {
    SortSorts(s, le);
    SortKeeps(s, le);
    var r := Sort(s, le);
    assert r[0] in multiset(r) && r[|r| - 1] in multiset(r);
    forall x | x in s ensures le(r[0], x) && le(x, r[|r| - 1]) {
      assert x in multiset(r) && le(x, x);
      var i :| 0 <= i < |r| && r[i] == x;
    }
  }

  lemma SameMembers<T>(a: seq<T>, b: seq<T>)
    requires multiset(a) == multiset(b)
    ensures forall x :: x in a <==> x in b
  {
    forall x ensures x in a <==> x in b {
      assert x in a <==> x in multiset(a);
      assert x in b <==> x in multiset(b);
    }
  }

  lemma FilterCons<T>(x: T, s: seq<T>, p: T -> bool)
    ensures Filter([x] + s, p) == if p(x) then [x] + Filter(s, p) else Filter(s, p)
  {
    assert ([x] + s)[1..] == s;
  }

  lemma {:induction false} InsertFilter<T>(x: T, s: seq<T>, le: (T, T) -> bool, p: T -> bool)
    requires p(x) ==> forall y | y in s && p(y) :: le(x, y)
    ensures Filter(Insert(x, s, le), p) == Filter([x] + s, p)
  {
    if s == [] {
      assert [x] + s == [x];
    } else if !le(x, s[0]) {
      var rest := s[1..];
      InsertFilter(x, rest, le, p);
      FilterCons(s[0], Insert(x, rest, le), p);
      FilterCons(x, rest, p);
      FilterCons(x, s, p);
      FilterCons(s[0], rest, p);
      assert s == [s[0]] + rest;
    }
  }

  /** Stability: elements of one equivalence class keep their order. */
  lemma {:induction false} SortStable<T(!new)>(s: seq<T>, le: (T, T) -> bool, p: T -> bool)
    requires TotalPreorder(le)
    requires forall x, y | p(x) && p(y) :: le(x, y)
    ensures Filter(Sort(s, le), p) == Filter(s, p)
  {
    if s != [] {
      SortStable(s[1..], le, p);
      var rest := Sort(s[1..], le);
      InsertFilter(s[0], rest, le, p);
      FilterCons(s[0], rest, p);
      FilterCons(s[0], s[1..], p);
      assert s == [s[0]] + s[1..];
    }
  }

  lemma {:induction false} FilterMembers<T>(s: seq<T>, p: T -> bool)
    ensures forall x :: x in Filter(s, p) <==> x in s && p(x)
    ensures forall x :: multiset(Filter(s, p))[x] == if p(x) then multiset(s)[x] else 0
  {
    if s != [] {
      FilterMembers(s[1..], p);
      assert s == [s[0]] + s[1..];
    }
  }

  /** The first element that is kept is the first one with the property. */
  lemma {:induction false} FilterFirst<T>(s: seq<T>, p: T -> bool) returns (first: nat)
    requires Filter(s, p) != []
    ensures first < |s| && s[first] == Filter(s, p)[0] && p(s[first]) && forall j | 0 <= j < first :: !p(s[j])
  {
    if p(s[0]) {
      first := 0;
    } else {
      assert [] + Filter(s[1..], p) == Filter(s[1..], p);
      first := FilterFirst(s[1..], p);
      first := first + 1;
    }
  }

  /** The last element that is kept is the last one with the property. */
  lemma {:induction false} FilterLast<T>(s: seq<T>, p: T -> bool) returns (last: nat)
    requires Filter(s, p) != []
    ensures last < |s| && s[last] == Filter(s, p)[|Filter(s, p)| - 1] && p(s[last])
    ensures forall j | last < j < |s| :: !p(s[j])
  {
    var rest := Filter(s[1..], p);
    if rest != [] {
      last := FilterLast(s[1..], p);
      last := last + 1;
      forall j | last < j < |s| ensures !p(s[j]) {
        assert s[j] == s[1..][j - 1];
      }
    } else {
      last := 0;
      FilterMembers(s[1..], p);
      forall j | 0 < j < |s| ensures !p(s[j]) {
        assert s[j] == s[1..][j - 1] && s[1..][j - 1] in s[1..] && s[j] !in rest;
      }
    }
  }

  lemma {:induction false} FilterTwice<T(!new)>(s: seq<T>, p: T -> bool, q: T -> bool, both: T -> bool)
    requires forall x :: both(x) <==> p(x) && q(x)
    ensures Filter(Filter(s, p), q) == Filter(s, both)
  {
    if s != [] {
      FilterTwice(s[1..], p, q, both);
      if p(s[0]) {
        FilterCons(s[0], Filter(s[1..], p), q);
      } else {
        assert [] + Filter(s[1..], p) == Filter(s[1..], p);
      }
    }
  }

  /** An end of a list that has the property stays at its end. */
  lemma {:induction false} FilterKeepsEnds<T>(s: seq<T>, p: T -> bool)
    requires s != []
    ensures var f := Filter(s, p);
            && (p(s[0]) ==> f != [] && f[0] == s[0])
            && (p(s[|s| - 1]) ==> f != [] && f[|f| - 1] == s[|s| - 1])
  {
    if |s| > 1 {
      FilterKeepsEnds(s[1..], p);
    }
  }
}
