// InitPackageFlow (f8a_worker/workers/init_package_flow.py): the table of
// monitored upstreams as a state machine over serial runs.
module Upstreams {
  import opened Common
  import opened Sorting

  // Times are in microseconds. Records are never removed; the position in the table is the id.
  datatype Row = Row(package: int, url: string, updatedAt: Option<int>, addedAt: int, deactivatedAt: Option<int>)

  const UPDATE_INTERVAL := 5 * 24 * 60 * 60 * 1000000

  // A pending change: the record at `index` becomes `row`, or `row` is added at the end.
  datatype Write = Write(index: nat, row: Row)

  // `clock` holds the four readings of utcnow() in one run, in program order. `flushed` is how many
  // pending changes a rollback can no longer discard.
  datatype Clock = Clock(lookup: int, add: int, check: int, update: int)
  datatype Arguments = Arguments(package: int, url: Option<string>, force: bool, clock: Clock, flushed: nat)

  datatype Outcome = Skipped(url: string) | Scheduled(id: nat, url: string)

  function Put(rows: seq<Row>, w: Write): seq<Row> {
    if w.index < |rows| then rows[w.index := w.row] else rows + [w.row]
  }

  function Apply(rows: seq<Row>, writes: seq<Write>): seq<Row>
    decreases |writes|
  {
    if writes == [] then rows else Apply(Put(rows, writes[0]), writes[1..])
  }

  function ValidateUrl(url: Option<string>, valid: string -> bool): string {
    if url.Some? && valid(url.value) then url.value else ""
  }

  // ----- the queries -----

  function AllIds(n: nat): seq<nat> {
    seq(n, i => i)
  }

  function Ids(rows: seq<Row>, keep: Row -> bool): seq<nat> {
    Filter(AllIds(|rows|), (i: nat) => i < |rows| && keep(rows[i]))
  }

  /** ORDER BY updated_at puts NULL last, and first when descending. */
  predicate NotAfter(a: Option<int>, b: Option<int>) {
    b.None? || (a.Some? && a.value <= b.value)
  }

  function TimeOf(rows: seq<Row>, id: nat): Option<int> {
    if id < |rows| then rows[id].updatedAt else None
  }

  function Oldest(rows: seq<Row>): (nat, nat) -> bool {
    (i: nat, j: nat) => NotAfter(TimeOf(rows, i), TimeOf(rows, j))
  }

  function Latest(rows: seq<Row>): (nat, nat) -> bool {
    (i: nat, j: nat) => NotAfter(TimeOf(rows, j), TimeOf(rows, i))
  }

  /** Active records of the package, ordered by updated_at. */
  function ActiveIds(rows: seq<Row>, package: int): seq<nat> {
    Sort(Ids(rows, (r: Row) => r.package == package && r.deactivatedAt.None?), Oldest(rows))
  }

  /** Deactivated records of the package with this URL, ordered by updated_at descending. */
  function OlderIds(rows: seq<Row>, package: int, url: Option<string>): seq<nat> {
    Sort(Ids(rows, (r: Row) => r.package == package && r.deactivatedAt.Some? && Some(r.url) == url), Latest(rows))
  }

  lemma IdsMembers(rows: seq<Row>, keep: Row -> bool)
    ensures forall i: nat :: i in Ids(rows, keep) <==> i < |rows| && keep(rows[i])
  {
    var all := AllIds(|rows|);
    FilterMembers(all, (i: nat) => i < |rows| && keep(rows[i]));
    forall i: nat ensures i in all <==> i < |rows| {
      if i < |rows| {
        assert all[i] == i;
      }
    }
  }

  lemma ActiveMembers(rows: seq<Row>, package: int)
    ensures forall i: nat :: i in ActiveIds(rows, package) <==>
                        i < |rows| && rows[i].package == package && rows[i].deactivatedAt.None?
  {
    var keep := (r: Row) => r.package == package && r.deactivatedAt.None?;
    IdsMembers(rows, keep);
    SortKeeps(Ids(rows, keep), Oldest(rows));
    SameMembers(Ids(rows, keep), ActiveIds(rows, package));
  }

  lemma OlderMembers(rows: seq<Row>, package: int, url: Option<string>)
    ensures forall i: nat :: i in OlderIds(rows, package, url) <==>
                        i < |rows| && rows[i].package == package && rows[i].deactivatedAt.Some? && Some(rows[i].url) == url
  {
    var keep := (r: Row) => r.package == package && r.deactivatedAt.Some? && Some(r.url) == url;
    IdsMembers(rows, keep);
    SortKeeps(Ids(rows, keep), Latest(rows));
    SameMembers(Ids(rows, keep), OlderIds(rows, package, url));
  }

  // ----- specification of one run -----

  /** The deactivations of get_upstream_entry, in loop order. */
  function Deactivations(rows: seq<Row>, ids: seq<nat>, url: Option<string>, now: int): seq<Write> {
    if ids == [] then []
    else if ids[0] < |rows| && url.Some? && rows[ids[0]].url != url.value then
      [Write(ids[0], rows[ids[0]].(deactivatedAt := Some(now)))] + Deactivations(rows, ids[1..], url, now)
    else Deactivations(rows, ids[1..], url, now)
  }

  /** The record get_upstream_entry returns: the last one it does not deactivate. */
  function Reused(rows: seq<Row>, ids: seq<nat>, url: Option<string>): Option<nat> {
    if ids == [] then None
    else
      var later := Reused(rows, ids[1..], url);
      if later.Some? then later
      else if ids[0] < |rows| && url.Some? && rows[ids[0]].url != url.value then None
      else Some(ids[0])
  }

  /** The change made by add_or_update_upstream. */
  function Addition(rows: seq<Row>, package: int, url: Option<string>, now: int, valid: string -> bool): Write {
    var older := OlderIds(rows, package, url);
    if older != [] && older[0] < |rows| then Write(older[0], rows[older[0]].(deactivatedAt := None))
    else Write(|rows|, Row(package, ValidateUrl(url, valid), None, now, None))
  }

  /** Everything written before the interval is checked, and the record the run works on. */
  function Plan(rows: seq<Row>, a: Arguments, valid: string -> bool): (seq<Write>, nat) {
    var ids := ActiveIds(rows, a.package);
    var writes := Deactivations(rows, ids, a.url, a.clock.lookup);
    match Reused(rows, ids, a.url)
    case Some(i) => (writes, i)
    case None =>
      var w := Addition(Apply(rows, writes), a.package, a.url, a.clock.add, valid);
      (writes + [w], w.index)
  }

  predicate Recent(row: Row, now: int) {
    row.updatedAt.Some? && now - row.updatedAt.value < UPDATE_INTERVAL
  }

  /** The table and the outcome after one run. */
  ghost predicate Ran(rows: seq<Row>, a: Arguments, valid: string -> bool, rows': seq<Row>, outcome: Outcome) {
    var (writes, id) := Plan(rows, a, valid);
    var planned := Apply(rows, writes);
    && id < |planned|
    && if !a.force && Recent(planned[id], a.clock.check) then
         && a.flushed <= |writes| && rows' == Apply(rows, writes[..a.flushed])
         && outcome == Skipped(planned[id].url)
       else
         && rows' == planned[id := planned[id].(updatedAt := Some(a.clock.update))]
         && outcome == Scheduled(id, planned[id].url)
  }

  // ----- the code -----

  class Session {
    var committed: seq<Row>
    var rows: seq<Row>
    var pending: seq<Write>

    ghost predicate Valid()
      reads this
    {
      rows == Apply(committed, pending)
    }

    constructor ()
      ensures Valid() && committed == [] && pending == []
    {
      committed, rows, pending := [], [], [];
    }

    method Change(w: Write)
      requires Valid()
      modifies this
      ensures Valid() && committed == old(committed)
      ensures rows == Put(old(rows), w) && pending == old(pending) + [w]
    {
      ApplySnoc(committed, pending, w);
      rows := Put(rows, w);
      pending := pending + [w];
    }

    method Commit()
      requires Valid()
      modifies this
      ensures Valid() && committed == rows == old(rows) && pending == []
    {
      committed, pending := rows, [];
    }

    /** Changes already sent to the database stay: the connection is opened with AUTOCOMMIT. */
    method Rollback(flushed: nat)
      requires Valid() && flushed <= |pending|
      modifies this
      ensures Valid() && committed == rows == Apply(old(committed), old(pending)[..flushed]) && pending == []
    {
      rows := Apply(committed, pending[..flushed]);
      committed, pending := rows, [];
    }

    method GetUpstreamEntry(package: int, url: Option<string>, now: int) returns (ret: Option<nat>)
      requires Valid() && pending == []
      modifies this
      ensures Valid() && committed == old(committed)
      ensures pending == Deactivations(old(rows), ActiveIds(old(rows), package), url, now)
      ensures ret == Reused(old(rows), ActiveIds(old(rows), package), url)
    {
      ghost var before := rows;
      var upstreams := ActiveIds(rows, package);
      ActiveMembers(rows, package);
      ActiveDistinct(rows, package);
      ret := None;
      assert forall j | 0 <= j < |upstreams| :: upstreams[j] in upstreams;
      for k := 0 to |upstreams|
        invariant Valid() && committed == old(committed) && |rows| == |before|
        invariant pending == Deactivations(before, upstreams[..k], url, now)
        invariant ret == Reused(before, upstreams[..k], url)
        invariant forall j | k <= j < |upstreams| :: upstreams[j] < |rows| && rows[upstreams[j]] == before[upstreams[j]]
      {
        var id := upstreams[k];
        DeactivationsSnoc(before, upstreams, k, url, now);
        ReusedSnoc(before, upstreams, k, url);
        if url.Some? && rows[id].url != url.value {
          Change(Write(id, rows[id].(deactivatedAt := Some(now))));
        } else {
          ret := Some(id);
        }
      }
      assert upstreams[..|upstreams|] == upstreams;
    }

    method AddOrUpdateUpstream(package: int, url: Option<string>, now: int, valid: string -> bool) returns (entry: nat)
      requires Valid()
      modifies this
      ensures Valid() && committed == old(committed)
      ensures var w := Addition(old(rows), package, url, now, valid);
              rows == Put(old(rows), w) && pending == old(pending) + [w] && entry == w.index
    {
      var older := OlderIds(rows, package, url);
      OlderMembers(rows, package, url);
      if older != [] {
        assert older[0] in older;
        entry := older[0];
        Change(Write(entry, rows[entry].(deactivatedAt := None)));
      } else {
        entry := |rows|;
        Change(Write(entry, Row(package, ValidateUrl(url, valid), None, now, None)));
      }
    }

    method Execute(a: Arguments, valid: string -> bool) returns (outcome: Outcome)
      requires Valid() && pending == []
      requires a.flushed <= |Plan(rows, a, valid).0|
      modifies this
      ensures Valid() && pending == [] && rows == committed
      ensures Ran(old(rows), a, valid, rows, outcome)
    {
      ghost var before := rows;
      PlanInRange(before, a, valid);
      var found := GetUpstreamEntry(a.package, a.url, a.clock.lookup);
      var upstream;
      if found.None? {
        upstream := AddOrUpdateUpstream(a.package, a.url, a.clock.add, valid);
      } else {
        upstream := found.value;
      }
      assert (pending, upstream) == Plan(before, a, valid);
      var row := rows[upstream];
      if !a.force {
        if row.updatedAt.Some? && a.clock.check - row.updatedAt.value < UPDATE_INTERVAL {
          Rollback(a.flushed);
          return Skipped(row.url);
        }
      }
      Change(Write(upstream, row.(updatedAt := Some(a.clock.update))));
      Commit();
      outcome := Scheduled(upstream, row.url);
    }
  }

  // ----- lemmas about the specification -----

  lemma {:induction false} ApplySnoc(rows: seq<Row>, writes: seq<Write>, w: Write)
    ensures Apply(rows, writes + [w]) == Put(Apply(rows, writes), w)
    decreases |writes|
  {
    if writes == [] {
      assert ([w])[1..] == [] && [] + [w] == [w];
    } else {
      assert (writes + [w])[1..] == writes[1..] + [w];
      ApplySnoc(Put(rows, writes[0]), writes[1..], w);
    }
  }

  lemma {:induction false} DistinctCount(s: seq<nat>)
    requires forall x :: multiset(s)[x] <= 1
    ensures forall i, j | 0 <= i < j < |s| :: s[i] != s[j]
  {
    if s != [] {
      assert s == [s[0]] + s[1..];
      assert multiset(s) == multiset{s[0]} + multiset(s[1..]);
      forall x ensures multiset(s[1..])[x] <= 1 {
        assert multiset(s)[x] <= 1;
      }
      DistinctCount(s[1..]);
      assert multiset(s)[s[0]] <= 1;
      assert s[0] !in s[1..];
    }
  }

  lemma {:induction false} RangeCount(n: nat)
    ensures forall x :: multiset(AllIds(n))[x] <= 1
  {
    var s := AllIds(n);
    if n > 0 {
      var t := AllIds(n - 1);
      RangeCount(n - 1);
      assert s == t + [n - 1];
      assert (n - 1) !in multiset(t);
    }
  }

  lemma SortedDistinct(s: seq<nat>, le: (nat, nat) -> bool)
    requires forall x :: multiset(s)[x] <= 1
    ensures forall i, j | 0 <= i < j < |Sort(s, le)| :: Sort(s, le)[i] != Sort(s, le)[j]
  {
    SortKeeps(s, le);
    DistinctCount(Sort(s, le));
  }

  lemma IdsOnce(rows: seq<Row>, keep: Row -> bool)
    ensures forall x :: multiset(Ids(rows, keep))[x] <= 1
  {
    RangeCount(|rows|);
    FilterMembers(AllIds(|rows|), (i: nat) => i < |rows| && keep(rows[i]));
  }

  lemma ActiveDistinct(rows: seq<Row>, package: int)
    ensures var ids := ActiveIds(rows, package); forall i, j | 0 <= i < j < |ids| :: ids[i] != ids[j]
  {
    var keep := (r: Row) => r.package == package && r.deactivatedAt.None?;
    IdsOnce(rows, keep);
    SortedDistinct(Ids(rows, keep), Oldest(rows));
  }

  lemma {:induction false} DeactivationsSnoc(rows: seq<Row>, ids: seq<nat>, k: nat, url: Option<string>, now: int)
    requires k < |ids| && ids[k] < |rows|
    ensures Deactivations(rows, ids[..k + 1], url, now) == Deactivations(rows, ids[..k], url, now) +
            (if url.Some? && rows[ids[k]].url != url.value then [Write(ids[k], rows[ids[k]].(deactivatedAt := Some(now)))] else [])
  {
    if k == 0 {
      assert ids[..1] == [ids[0]] && ids[..0] == [];
      assert ids[..1][1..] == [];
    } else {
      assert ids[..k + 1][1..] == ids[1..][..k] && ids[..k][1..] == ids[1..][..k - 1];
      DeactivationsSnoc(rows, ids[1..], k - 1, url, now);
    }
  }

  lemma {:induction false} ReusedSnoc(rows: seq<Row>, ids: seq<nat>, k: nat, url: Option<string>)
    requires k < |ids| && ids[k] < |rows|
    ensures Reused(rows, ids[..k + 1], url) ==
            if url.Some? && rows[ids[k]].url != url.value then Reused(rows, ids[..k], url) else Some(ids[k])
  {
    if k == 0 {
      assert ids[..1] == [ids[0]] && ids[..0] == [];
      assert ids[..1][1..] == [];
    } else {
      assert ids[..k + 1][1..] == ids[1..][..k] && ids[..k][1..] == ids[1..][..k - 1];
      ReusedSnoc(rows, ids[1..], k - 1, url);
    }
  }

  lemma {:induction false} DeactivationsShape(rows: seq<Row>, ids: seq<nat>, url: Option<string>, now: int)
    ensures forall w | w in Deactivations(rows, ids, url, now) ::
              && w.index in ids && w.index < |rows| && url.Some? && rows[w.index].url != url.value
              && w.row == rows[w.index].(deactivatedAt := Some(now))
    ensures forall i | i in ids && i < |rows| && url.Some? && rows[i].url != url.value ::
              Write(i, rows[i].(deactivatedAt := Some(now))) in Deactivations(rows, ids, url, now)
  {
    if ids != [] {
      DeactivationsShape(rows, ids[1..], url, now);
      assert ids == [ids[0]] + ids[1..];
    }
  }

  lemma {:induction false} ReusedShape(rows: seq<Row>, ids: seq<nat>, url: Option<string>)
    requires forall i | i in ids :: i < |rows|
    ensures var r := Reused(rows, ids, url);
            && (r.Some? ==> r.value in ids && (url.None? || rows[r.value].url == url.value))
            && (r.None? ==> forall i | i in ids :: url.Some? && rows[i].url != url.value)
  {
    if ids != [] {
      assert ids == [ids[0]] + ids[1..];
      assert forall i | i in ids[1..] :: i in ids;
      ReusedShape(rows, ids[1..], url);
    }
  }

  /** Writes that each replace a record by its deactivated form leave everything else as it was. */
  lemma {:induction false} ApplyDeactivations(rows: seq<Row>, writes: seq<Write>, base: seq<Row>, now: int)
    requires |rows| == |base|
    requires forall w | w in writes :: w.index < |base| && w.row == base[w.index].(deactivatedAt := Some(now))
    ensures var r := Apply(rows, writes);
            && |r| == |rows|
            && forall i | 0 <= i < |r| ::
                 r[i] == if exists w :: w in writes && w.index == i then base[i].(deactivatedAt := Some(now)) else rows[i]
    decreases |writes|
  {
    if writes != [] {
      assert writes == [writes[0]] + writes[1..] && writes[0] in writes;
      ApplyDeactivations(Put(rows, writes[0]), writes[1..], base, now);
    }
  }

  lemma PlanInRange(rows: seq<Row>, a: Arguments, valid: string -> bool)
    ensures var (writes, id) := Plan(rows, a, valid); id < |Apply(rows, writes)|
  {
    var ids := ActiveIds(rows, a.package);
    ActiveMembers(rows, a.package);
    var writes := Deactivations(rows, ids, a.url, a.clock.lookup);
    DeactivationsShape(rows, ids, a.url, a.clock.lookup);
    ApplyDeactivations(rows, writes, rows, a.clock.lookup);
    ReusedShape(rows, ids, a.url);
    ApplySnoc(rows, writes, Addition(Apply(rows, writes), a.package, a.url, a.clock.add, valid));
  }

  // ----- what every run keeps -----

  predicate ValidUrl(url: string, valid: string -> bool) {
    url != "" && valid(url)
  }

  predicate OneActive(rows: seq<Row>) {
    forall i, j | 0 <= i < j < |rows| && rows[i].package == rows[j].package ::
      rows[i].deactivatedAt.Some? || rows[j].deactivatedAt.Some?
  }

  predicate OnePerUrl(rows: seq<Row>, valid: string -> bool) {
    forall i, j | 0 <= i < j < |rows| && rows[i].package == rows[j].package && rows[i].url == rows[j].url ::
      !ValidUrl(rows[i].url, valid)
  }

  predicate UrlsValidated(rows: seq<Row>, valid: string -> bool) {
    forall i | 0 <= i < |rows| :: rows[i].url == "" || valid(rows[i].url)
  }

  /** Each package has at most one active record, each (package, valid URL) at most one record. */
  predicate Good(rows: seq<Row>, valid: string -> bool) {
    OneActive(rows) && OnePerUrl(rows, valid) && UrlsValidated(rows, valid)
  }

  /** `rows'` extends `rows`: no record is lost or changes its identity or its scheduling time, new ones
      were never scheduled. */
  ghost predicate Extends(rows: seq<Row>, rows': seq<Row>) {
    && |rows| <= |rows'|
    && (forall i | 0 <= i < |rows| ::
          rows'[i].package == rows[i].package && rows'[i].url == rows[i].url && rows'[i].updatedAt == rows[i].updatedAt)
    && (forall i | |rows| <= i < |rows'| :: rows'[i].updatedAt == None)
  }

  /** Deactivating records, some or all, keeps the table good. */
  lemma WeakenedGood(rows: seq<Row>, mid: seq<Row>, valid: string -> bool, now: int)
    requires Good(rows, valid) && |mid| == |rows|
    requires forall i | 0 <= i < |mid| :: mid[i] == rows[i] || mid[i] == rows[i].(deactivatedAt := Some(now))
    ensures Good(mid, valid) && Extends(rows, mid)
  {
    forall i, j | 0 <= i < j < |mid| && mid[i].package == mid[j].package
      ensures mid[i].deactivatedAt.Some? || mid[j].deactivatedAt.Some?
    {
      assert rows[i].package == rows[j].package;
    }
    forall i, j | 0 <= i < j < |mid| && mid[i].package == mid[j].package && mid[i].url == mid[j].url
      ensures !ValidUrl(mid[i].url, valid)
    {
      assert rows[i].package == rows[j].package && rows[i].url == rows[j].url;
    }
  }

  /** After any part of the deactivations the table is still good. */
  lemma DeactivatedGood(rows: seq<Row>, a: Arguments, valid: string -> bool, k: nat)
    requires Good(rows, valid)
    requires k <= |Deactivations(rows, ActiveIds(rows, a.package), a.url, a.clock.lookup)|
    ensures var writes := Deactivations(rows, ActiveIds(rows, a.package), a.url, a.clock.lookup);
            var mid := Apply(rows, writes[..k]);
            Good(mid, valid) && Extends(rows, mid) && |mid| == |rows|
  {
    var ids := ActiveIds(rows, a.package);
    var writes := Deactivations(rows, ids, a.url, a.clock.lookup);
    DeactivationsShape(rows, ids, a.url, a.clock.lookup);
    assert forall w | w in writes[..k] :: w in writes;
    ApplyDeactivations(rows, writes[..k], rows, a.clock.lookup);
    WeakenedGood(rows, Apply(rows, writes[..k]), valid, a.clock.lookup);
  }

  /** After all deactivations, the package has no active record unless one is reused. */
  lemma NoneLeftActive(rows: seq<Row>, a: Arguments)
    requires Reused(rows, ActiveIds(rows, a.package), a.url).None?
    ensures var mid := Apply(rows, Deactivations(rows, ActiveIds(rows, a.package), a.url, a.clock.lookup));
            && |mid| == |rows|
            && (forall i | 0 <= i < |mid| :: mid[i].package == rows[i].package && mid[i].url == rows[i].url)
            && (forall i | 0 <= i < |mid| && mid[i].package == a.package :: mid[i].deactivatedAt.Some?)
  {
    var ids := ActiveIds(rows, a.package);
    var writes := Deactivations(rows, ids, a.url, a.clock.lookup);
    ActiveMembers(rows, a.package);
    DeactivationsShape(rows, ids, a.url, a.clock.lookup);
    ApplyDeactivations(rows, writes, rows, a.clock.lookup);
    ReusedShape(rows, ids, a.url);
    var mid := Apply(rows, writes);
    forall i | 0 <= i < |mid| && mid[i].package == a.package ensures mid[i].deactivatedAt.Some? {
      if rows[i].deactivatedAt.None? {
        assert i in ids;
        assert Write(i, rows[i].(deactivatedAt := Some(a.clock.lookup))) in writes;
      }
    }
  }

  /** Reactivating or adding a record where the package has no active one keeps the table good. */
  lemma AdditionGood(mid: seq<Row>, package: int, url: Option<string>, now: int, valid: string -> bool)
    requires Good(mid, valid)
    requires forall i | 0 <= i < |mid| && mid[i].package == package :: mid[i].deactivatedAt.Some?
    ensures var w := Addition(mid, package, url, now, valid);
            Good(Put(mid, w), valid) && Extends(mid, Put(mid, w)) && w.index < |Put(mid, w)|
  {
    OlderMembers(mid, package, url);
    var older := OlderIds(mid, package, url);
    var w := Addition(mid, package, url, now, valid);
    if older != [] {
      assert older[0] in older;
    } else {
      forall i | 0 <= i < |mid| && mid[i].package == package && mid[i].url == w.row.url
        ensures !ValidUrl(w.row.url, valid)
      {
        assert i !in older;
      }
    }
  }

  lemma PlanGood(rows: seq<Row>, a: Arguments, valid: string -> bool, k: nat)
    requires Good(rows, valid) && k <= |Plan(rows, a, valid).0|
    ensures var part := Apply(rows, Plan(rows, a, valid).0[..k]); Good(part, valid) && Extends(rows, part)
  {
    var ids := ActiveIds(rows, a.package);
    var writes := Deactivations(rows, ids, a.url, a.clock.lookup);
    if k <= |writes| {
      DeactivatedGood(rows, a, valid, k);
      assert Plan(rows, a, valid).0[..k] == writes[..k];
    } else {
      DeactivatedGood(rows, a, valid, |writes|);
      assert writes[..|writes|] == writes;
      NoneLeftActive(rows, a);
      var mid := Apply(rows, writes);
      var w := Addition(mid, a.package, a.url, a.clock.add, valid);
      AdditionGood(mid, a.package, a.url, a.clock.add, valid);
      ApplySnoc(rows, writes, w);
      assert Plan(rows, a, valid).0[..k] == writes + [w];
    }
  }

  /** One run keeps the table good, whatever part of its changes a rollback leaves behind. */
  lemma RunKeepsGood(rows: seq<Row>, a: Arguments, valid: string -> bool, rows': seq<Row>, outcome: Outcome)
    requires Good(rows, valid) && Ran(rows, a, valid, rows', outcome)
    ensures Good(rows', valid)
  {
    var (writes, id) := Plan(rows, a, valid);
    PlanGood(rows, a, valid, |writes|);
    assert writes[..|writes|] == writes;
    if outcome.Skipped? {
      PlanGood(rows, a, valid, a.flushed);
    }
  }

  lemma OlderDistinct(rows: seq<Row>, package: int, url: Option<string>)
    ensures var ids := OlderIds(rows, package, url); forall i, j | 0 <= i < j < |ids| :: ids[i] != ids[j]
  {
    var keep := (r: Row) => r.package == package && r.deactivatedAt.Some? && Some(r.url) == url;
    IdsOnce(rows, keep);
    SortedDistinct(Ids(rows, keep), Latest(rows));
  }

  lemma AtMostOne(s: seq<nat>)
    requires forall i, j | 0 <= i < j < |s| :: s[i] != s[j]
    requires forall x, y | x in s && y in s :: x == y
    ensures |s| <= 1
  {
    if s != [] {
      assert s[0] in s && s[|s| - 1] in s;
    }
  }

  /** In a good table the order of the queried records never matters: a package has at most one active
      record, and a valid URL at most one older one. */
  lemma OrderIrrelevant(rows: seq<Row>, package: int, url: Option<string>, valid: string -> bool)
    requires Good(rows, valid)
    ensures |ActiveIds(rows, package)| <= 1
    ensures url.Some? && ValidUrl(url.value, valid) ==> |OlderIds(rows, package, url)| <= 1
  {
    ActiveMembers(rows, package);
    ActiveDistinct(rows, package);
    AtMostOne(ActiveIds(rows, package));
    if url.Some? && ValidUrl(url.value, valid) {
      OlderMembers(rows, package, url);
      OlderDistinct(rows, package, url);
      AtMostOne(OlderIds(rows, package, url));
    }
  }

  // ----- every sequence of runs -----

  /** `tables[k]` is the table before run `k`; the first one is empty. */
  ghost predicate IsHistory(tables: seq<seq<Row>>, args: seq<Arguments>, outcomes: seq<Outcome>, valid: string -> bool) {
    && |tables| == |args| + 1 && |outcomes| == |args| && tables[0] == []
    && forall k | 0 <= k < |args| :: Ran(tables[k], args[k], valid, tables[k + 1], outcomes[k])
  }

  /** When the record was last scheduled in the first `k` runs. */
  function LastScheduled(args: seq<Arguments>, outcomes: seq<Outcome>, k: nat, id: nat): Option<int>
    requires k <= |args| == |outcomes|
  {
    if k == 0 then None
    else if outcomes[k - 1].Scheduled? && outcomes[k - 1].id == id then Some(args[k - 1].clock.update)
    else LastScheduled(args, outcomes, k - 1, id)
  }

  /** One run changes the scheduling time of the scheduled record only. */
  lemma RunTimes(rows: seq<Row>, a: Arguments, valid: string -> bool, rows': seq<Row>, outcome: Outcome, id: nat)
    requires Good(rows, valid) && Ran(rows, a, valid, rows', outcome)
    ensures TimeOf(rows', id) == if outcome.Scheduled? && outcome.id == id then Some(a.clock.update) else TimeOf(rows, id)
  {
    var writes := Plan(rows, a, valid).0;
    PlanGood(rows, a, valid, |writes|);
    assert writes[..|writes|] == writes;
    if outcome.Skipped? {
      PlanGood(rows, a, valid, a.flushed);
    }
  }

  /** In every serial history from the empty table, each package always has at most one active record and
      each (package, valid URL) at most one record; updated_at is the time of the last scheduling. */
  lemma {:induction false} HistoryInvariant(tables: seq<seq<Row>>, args: seq<Arguments>, outcomes: seq<Outcome>,
                                            valid: string -> bool, k: nat)
    requires IsHistory(tables, args, outcomes, valid) && k <= |args|
    ensures Good(tables[k], valid)
    ensures forall id: nat :: LastScheduled(args, outcomes, k, id) == TimeOf(tables[k], id)
  {
    if k > 0 {
      HistoryInvariant(tables, args, outcomes, valid, k - 1);
      var (rows, a, outcome) := (tables[k - 1], args[k - 1], outcomes[k - 1]);
      assert Ran(rows, a, valid, tables[k], outcome);
      RunKeepsGood(rows, a, valid, tables[k], outcome);
      forall id: nat ensures LastScheduled(args, outcomes, k, id) == TimeOf(tables[k], id) {
        RunTimes(rows, a, valid, tables[k], outcome, id);
      }
    }
  }

  /** A run schedules an analysis for the record it settles on exactly when it is forced, or that record
      was never scheduled, or its last scheduling is at least five days old. */
  lemma ScheduledExactly(tables: seq<seq<Row>>, args: seq<Arguments>, outcomes: seq<Outcome>,
                         valid: string -> bool, k: nat)
    requires IsHistory(tables, args, outcomes, valid) && k < |args|
    ensures var id := Plan(tables[k], args[k], valid).1;
            var last := LastScheduled(args, outcomes, k, id);
            && (outcomes[k].Scheduled? <==>
                  args[k].force || last.None? || args[k].clock.check - last.value >= 5 * 86_400_000_000)
            && (outcomes[k].Scheduled? ==> outcomes[k].id == id)
  {
    HistoryInvariant(tables, args, outcomes, valid, k);
    PlannedTime(tables[k], args[k], valid, tables[k + 1], outcomes[k]);
  }

  lemma PlannedTime(rows: seq<Row>, a: Arguments, valid: string -> bool, rows': seq<Row>, outcome: Outcome)
    requires Good(rows, valid) && Ran(rows, a, valid, rows', outcome)
    ensures var id := Plan(rows, a, valid).1;
            var last := TimeOf(rows, id);
            && (outcome.Scheduled? <==> a.force || last.None? || a.clock.check - last.value >= UPDATE_INTERVAL)
            && (outcome.Scheduled? ==> outcome.id == id)
  {
    var writes := Plan(rows, a, valid).0;
    PlanGood(rows, a, valid, |writes|);
    assert writes[..|writes|] == writes;
  }

  // ----- what one run does to each record -----

  /** An active record of the package with another URL than the one given. */
  predicate Superseded(row: Row, a: Arguments) {
    row.package == a.package && row.deactivatedAt.None? && a.url.Some? && row.url != a.url.value
  }

  /** The record after the deactivations of a run. */
  function AfterLookup(row: Row, a: Arguments): Row {
    if Superseded(row, a) then Row(row.package, row.url, row.updatedAt, row.addedAt, Some(a.clock.lookup)) else row
  }

  /** A scheduling run: superseded records are deactivated, the record it works on is active and scheduled now,
      with the URL given if it is valid, and added now when it is new; nothing else changes. */
  ghost predicate SchedulingEffect(rows: seq<Row>, a: Arguments, valid: string -> bool, rows': seq<Row>, id: nat, url: string) {
    && id < |rows'| && |rows'| == (if id == |rows| then |rows| + 1 else |rows|)
    && (forall i | 0 <= i < |rows| && i != id :: rows'[i] == AfterLookup(rows[i], a))
    && rows'[id] == Row(a.package, url, Some(a.clock.update), if id == |rows| then a.clock.add else rows[id].addedAt, None)
    && (id < |rows| ==> rows[id].package == a.package && rows[id].url == url)
    && (if a.url.Some? then url == (if valid(a.url.value) then a.url.value else "") else id == |rows| ==> url == "")
  }

  /** A skipped run: each record is as before, or deactivated because it is superseded, or the reactivated one. */
  ghost predicate SkippingEffect(rows: seq<Row>, a: Arguments, rows': seq<Row>, id: nat, url: string) {
    && id < |rows| == |rows'| && rows[id].package == a.package && rows[id].url == url
    && (forall i | 0 <= i < |rows| ::
          || rows'[i] == rows[i]
          || rows'[i] == AfterLookup(rows[i], a)
          || (i == id && rows'[i] == rows[i].(deactivatedAt := None)))
  }

  lemma LookupEffect(rows: seq<Row>, a: Arguments, k: nat)
    requires k <= |Deactivations(rows, ActiveIds(rows, a.package), a.url, a.clock.lookup)|
    ensures var writes := Deactivations(rows, ActiveIds(rows, a.package), a.url, a.clock.lookup);
            var mid := Apply(rows, writes[..k]);
            && |mid| == |rows|
            && (forall i | 0 <= i < |rows| :: mid[i] == rows[i] || mid[i] == AfterLookup(rows[i], a))
            && (k == |writes| ==> forall i | 0 <= i < |rows| :: mid[i] == AfterLookup(rows[i], a))
  {
    var ids := ActiveIds(rows, a.package);
    var writes := Deactivations(rows, ids, a.url, a.clock.lookup);
    ActiveMembers(rows, a.package);
    DeactivationsShape(rows, ids, a.url, a.clock.lookup);
    assert forall w | w in writes[..k] :: w in writes;
    ApplyDeactivations(rows, writes[..k], rows, a.clock.lookup);
    if k == |writes| {
      assert writes[..k] == writes;
      forall i | 0 <= i < |rows| && Superseded(rows[i], a) ensures exists w :: w in writes && w.index == i {
        assert i in ids;
        assert Write(i, rows[i].(deactivatedAt := Some(a.clock.lookup))) in writes;
      }
    }
  }

  lemma AdditionEffect(mid: seq<Row>, package: int, url: Option<string>, now: int, valid: string -> bool)
    requires Good(mid, valid)
    ensures var w := Addition(mid, package, url, now, valid);
            && w.index <= |mid| && w.row.package == package && w.row.deactivatedAt.None?
            && (if url.Some? then w.row.url == (if valid(url.value) then url.value else "") else w.row.url == "")
            && if w.index < |mid| then w.row == mid[w.index].(deactivatedAt := None)
               else w.row.addedAt == now && w.row.updatedAt.None?
  {
    OlderMembers(mid, package, url);
    var older := OlderIds(mid, package, url);
    if older != [] {
      assert older[0] in older;
    }
  }

  lemma PlanEffect(rows: seq<Row>, a: Arguments, valid: string -> bool)
    requires Good(rows, valid)
    ensures var (writes, id) := Plan(rows, a, valid);
            var planned := Apply(rows, writes);
            && id < |planned| && |planned| == (if id == |rows| then |rows| + 1 else |rows|)
            && (forall i | 0 <= i < |rows| && i != id :: planned[i] == AfterLookup(rows[i], a))
            && planned[id].package == a.package && planned[id].deactivatedAt.None?
            && (if id < |rows| then planned[id] == rows[id].(deactivatedAt := None)
                else planned[id].addedAt == a.clock.add && planned[id].updatedAt.None?)
            && (if a.url.Some? then planned[id].url == (if valid(a.url.value) then a.url.value else "")
                else id == |rows| ==> planned[id].url == "")
  {
    var ids := ActiveIds(rows, a.package);
    var writes := Deactivations(rows, ids, a.url, a.clock.lookup);
    LookupEffect(rows, a, |writes|);
    assert writes[..|writes|] == writes;
    ActiveMembers(rows, a.package);
    ReusedShape(rows, ids, a.url);
    var mid := Apply(rows, writes);
    DeactivatedGood(rows, a, valid, |writes|);
    if Reused(rows, ids, a.url).None? {
      AdditionEffect(mid, a.package, a.url, a.clock.add, valid);
      ApplySnoc(rows, writes, Addition(mid, a.package, a.url, a.clock.add, valid));
    }
  }

  lemma PartEffect(rows: seq<Row>, a: Arguments, valid: string -> bool, k: nat)
    requires Good(rows, valid) && k <= |Plan(rows, a, valid).0| && Plan(rows, a, valid).1 < |rows|
    ensures var (writes, id) := Plan(rows, a, valid);
            SkippingEffect(rows, a, Apply(rows, writes[..k]), id, rows[id].url)
  {
    var (writes, id) := Plan(rows, a, valid);
    var lookups := Deactivations(rows, ActiveIds(rows, a.package), a.url, a.clock.lookup);
    PlanEffect(rows, a, valid);
    if k <= |lookups| {
      LookupEffect(rows, a, k);
      assert writes[..k] == lookups[..k];
    } else {
      assert writes[..k] == writes;
    }
  }

  /** What a run does, record by record. */
  lemma RunEffect(rows: seq<Row>, a: Arguments, valid: string -> bool, rows': seq<Row>, outcome: Outcome)
    requires Good(rows, valid) && Ran(rows, a, valid, rows', outcome)
    ensures match outcome
            case Scheduled(id, url) => SchedulingEffect(rows, a, valid, rows', id, url)
            case Skipped(url) => exists id :: SkippingEffect(rows, a, rows', id, url)
  {
    PlanEffect(rows, a, valid);
    if outcome.Skipped? {
      PartEffect(rows, a, valid, a.flushed);
    }
  }

  // ----- when a record is added -----

  predicate HasUrl(rows: seq<Row>, package: int, url: string) {
    exists i :: 0 <= i < |rows| && rows[i].package == package && rows[i].url == url
  }

  lemma PlansExactly(rows: seq<Row>, a: Arguments, valid: string -> bool)
    requires Good(rows, valid) && a.url.Some?
    ensures |Apply(rows, Plan(rows, a, valid).0)| == |rows| + if HasUrl(rows, a.package, a.url.value) then 0 else 1
  {
    var ids := ActiveIds(rows, a.package);
    var writes := Deactivations(rows, ids, a.url, a.clock.lookup);
    DeactivatedGood(rows, a, valid, |writes|);
    assert writes[..|writes|] == writes;
    var mid := Apply(rows, writes);
    ActiveMembers(rows, a.package);
    ReusedShape(rows, ids, a.url);
    if Reused(rows, ids, a.url).None? {
      NoneLeftActive(rows, a);
      var w := Addition(mid, a.package, a.url, a.clock.add, valid);
      ApplySnoc(rows, writes, w);
      OlderMembers(mid, a.package, a.url);
      var older := OlderIds(mid, a.package, a.url);
      if older != [] {
        assert older[0] in older;
      } else {
        forall i | 0 <= i < |rows| && rows[i].package == a.package ensures rows[i].url != a.url.value {
          assert i !in older;
        }
      }
    }
  }

  lemma {:induction false} ApplyGrows(rows: seq<Row>, writes: seq<Write>, k: nat)
    requires k <= |writes|
    ensures |rows| <= |Apply(rows, writes[..k])| <= |Apply(rows, writes)|
    decreases |writes|
  {
    if k > 0 {
      assert writes[..k][1..] == writes[1..][..k - 1];
      ApplyGrows(Put(rows, writes[0]), writes[1..], k - 1);
    } else if writes != [] {
      assert writes[1..][..0] == [];
      ApplyGrows(Put(rows, writes[0]), writes[1..], 0);
    }
  }

  /** With a URL given, the table after a run has a record more exactly when no record of the package had
      that URL; whatever a rollback keeps, no other records come in. */
  lemma AddsExactly(rows: seq<Row>, a: Arguments, valid: string -> bool, rows': seq<Row>, outcome: Outcome)
    requires Good(rows, valid) && Ran(rows, a, valid, rows', outcome) && a.url.Some?
    ensures |rows'| == |rows| + if HasUrl(rows, a.package, a.url.value) then 0 else 1
  {
    var (writes, id) := Plan(rows, a, valid);
    PlansExactly(rows, a, valid);
    if outcome.Skipped? {
      ApplyGrows(rows, writes, a.flushed);
      PlanGood(rows, a, valid, |writes|);
      assert writes[..|writes|] == writes;
      if !HasUrl(rows, a.package, a.url.value) {
        NewIsPlanned(rows, a, valid);
      }
    }
  }

  /** When a record is added, it is the one the run works on. */
  lemma NewIsPlanned(rows: seq<Row>, a: Arguments, valid: string -> bool)
    requires Good(rows, valid) && a.url.Some? && !HasUrl(rows, a.package, a.url.value)
    ensures Plan(rows, a, valid).1 == |rows|
  {
    var ids := ActiveIds(rows, a.package);
    ActiveMembers(rows, a.package);
    ReusedShape(rows, ids, a.url);
    NoneLeftActive(rows, a);
    OlderMembers(Apply(rows, Deactivations(rows, ids, a.url, a.clock.lookup)), a.package, a.url);
    var older := OlderIds(Apply(rows, Deactivations(rows, ids, a.url, a.clock.lookup)), a.package, a.url);
  }

  // ----- when a package loses its active record -----

  predicate HasActive(rows: seq<Row>, package: int) {
    exists i :: 0 <= i < |rows| && rows[i].package == package && rows[i].deactivatedAt.None?
  }

  /** A good table leaves one active record at most to keep or to deactivate. */
  lemma OneToDeactivate(rows: seq<Row>, a: Arguments, valid: string -> bool)
    requires Good(rows, valid)
    ensures var ids := ActiveIds(rows, a.package);
            var writes := Deactivations(rows, ids, a.url, a.clock.lookup);
            if Reused(rows, ids, a.url).Some? then writes == [] && HasActive(rows, a.package)
            else |writes| == (if HasActive(rows, a.package) then 1 else 0)
  {
    var ids := ActiveIds(rows, a.package);
    OrderIrrelevant(rows, a.package, a.url, valid);
    ActiveMembers(rows, a.package);
    if ids != [] {
      assert ids[0] in ids && ids[1..] == [] && ids[0] < |rows|;
      assert Reused(rows, ids[1..], a.url) == None && Deactivations(rows, ids[1..], a.url, a.clock.lookup) == [];
    }
    if HasActive(rows, a.package) {
      var i :| 0 <= i < |rows| && rows[i].package == a.package && rows[i].deactivatedAt.None?;
      assert i in ids;
    }
  }

  lemma PlannedActive(rows: seq<Row>, a: Arguments, valid: string -> bool)
    requires Good(rows, valid)
    ensures var (writes, id) := Plan(rows, a, valid);
            var planned := Apply(rows, writes);
            id < |planned| && planned[id].package == a.package && planned[id].deactivatedAt.None?
  {
    var ids := ActiveIds(rows, a.package);
    var writes := Deactivations(rows, ids, a.url, a.clock.lookup);
    OneToDeactivate(rows, a, valid);
    ActiveMembers(rows, a.package);
    ReusedShape(rows, ids, a.url);
    if Reused(rows, ids, a.url).None? {
      NoneLeftActive(rows, a);
      var mid := Apply(rows, writes);
      ApplySnoc(rows, writes, Addition(mid, a.package, a.url, a.clock.add, valid));
      OlderMembers(mid, a.package, a.url);
      var older := OlderIds(mid, a.package, a.url);
      assert older != [] ==> older[0] in older;
    }
  }

  lemma SkippedActive(rows: seq<Row>, a: Arguments, valid: string -> bool)
    requires Good(rows, valid) && a.flushed <= |Plan(rows, a, valid).0|
    requires Reused(rows, ActiveIds(rows, a.package), a.url).None?
    ensures var writes := Plan(rows, a, valid).0;
            HasActive(Apply(rows, writes[..a.flushed]), a.package) <==> a.flushed + 1 != |writes|
  {
    var writes := Plan(rows, a, valid).0;
    OneToDeactivate(rows, a, valid);
    PlannedActive(rows, a, valid);
    NoneLeftActive(rows, a);
    if a.flushed == |writes| {
      assert writes[..a.flushed] == writes;
    } else if a.flushed + 1 == |writes| {
      assert writes[..a.flushed] == Deactivations(rows, ActiveIds(rows, a.package), a.url, a.clock.lookup);
    } else {
      assert writes[..a.flushed] == [];
    }
  }

  /** In terms of the run: no active record is left when it is skipped after none could be reused, and the
      rollback discards the last change, the reactivation, alone. */
  lemma LeavesActive(rows: seq<Row>, a: Arguments, valid: string -> bool, rows': seq<Row>, outcome: Outcome)
    requires Good(rows, valid) && Ran(rows, a, valid, rows', outcome)
    ensures HasActive(rows', a.package) <==>
            !(&& outcome.Skipped? && Reused(rows, ActiveIds(rows, a.package), a.url).None?
              && a.flushed + 1 == |Plan(rows, a, valid).0|)
  {
    var (writes, id) := Plan(rows, a, valid);
    PlannedActive(rows, a, valid);
    OneToDeactivate(rows, a, valid);
    if outcome.Scheduled? {
      assert rows'[id].package == a.package && rows'[id].deactivatedAt.None?;
    } else if Reused(rows, ActiveIds(rows, a.package), a.url).None? {
      SkippedActive(rows, a, valid);
    } else {
      assert writes[..a.flushed] == [];
    }
  }

  /** The record that would be reactivated was scheduled lately: the first in descending order is one that
      was never scheduled, if there is such a record, and otherwise the one scheduled last. */
  predicate GoesBackToRecent(rows: seq<Row>, package: int, url: string, now: int) {
    && (exists i :: 0 <= i < |rows| && IsOlder(rows[i], package, url) && Recent(rows[i], now))
    && (forall i | 0 <= i < |rows| && IsOlder(rows[i], package, url) :: rows[i].updatedAt.Some?)
  }

  predicate IsOlder(row: Row, package: int, url: string) {
    row.package == package && row.url == url && row.deactivatedAt.Some?
  }

  predicate IsActive(row: Row, package: int, url: string) {
    row.package == package && row.url == url && row.deactivatedAt.None?
  }

  /** Read off the table and the arguments: the package goes back to a URL whose older record was scheduled
      lately, and a rollback keeps the deactivation of the current record, if any, and nothing else. */
  predicate LosesActive(rows: seq<Row>, a: Arguments) {
    && a.url.Some? && !a.force && GoesBackToRecent(rows, a.package, a.url.value, a.clock.check)
    && (forall i | 0 <= i < |rows| :: !IsActive(rows[i], a.package, a.url.value))
    && a.flushed == if HasActive(rows, a.package) then 1 else 0
  }

  /** The record planned when none is reused is recent exactly when it goes back to a recent one. */
  lemma PlannedRecent(rows: seq<Row>, a: Arguments, valid: string -> bool)
    requires Good(rows, valid) && a.url.Some? && Reused(rows, ActiveIds(rows, a.package), a.url).None?
    ensures var (writes, id) := Plan(rows, a, valid);
            var planned := Apply(rows, writes);
            id < |planned| && (Recent(planned[id], a.clock.check) <==>
                               GoesBackToRecent(rows, a.package, a.url.value, a.clock.check))
  {
    var ids := ActiveIds(rows, a.package);
    var writes := Deactivations(rows, ids, a.url, a.clock.lookup);
    var mid := Apply(rows, writes);
    DeactivatedGood(rows, a, valid, |writes|);
    assert writes[..|writes|] == writes;
    NoneLeftActive(rows, a);
    NotReused(rows, a);
    ApplySnoc(rows, writes, Addition(mid, a.package, a.url, a.clock.add, valid));
    OlderFirst(mid, a.package, a.url.value, a.clock.check);
    forall i | 0 <= i < |rows| ensures IsOlder(mid[i], a.package, a.url.value) <==> IsOlder(rows[i], a.package, a.url.value) {
      assert !IsActive(rows[i], a.package, a.url.value);
    }
    SameOlder(rows, mid, a.package, a.url.value, a.clock.check);
  }

  lemma SameOlder(rows: seq<Row>, mid: seq<Row>, package: int, url: string, now: int)
    requires |mid| == |rows| && forall i | 0 <= i < |rows| ::
               mid[i].updatedAt == rows[i].updatedAt && (IsOlder(mid[i], package, url) <==> IsOlder(rows[i], package, url))
    ensures GoesBackToRecent(mid, package, url, now) <==> GoesBackToRecent(rows, package, url, now)
  {
    assert forall i | 0 <= i < |rows| :: Recent(mid[i], now) <==> Recent(rows[i], now);
  }

  /** No record is reused exactly when no active one has the URL. */
  lemma NotReused(rows: seq<Row>, a: Arguments)
    requires a.url.Some?
    ensures Reused(rows, ActiveIds(rows, a.package), a.url).None? <==>
            forall i | 0 <= i < |rows| :: !IsActive(rows[i], a.package, a.url.value)
  {
    ActiveMembers(rows, a.package);
    ReusedShape(rows, ActiveIds(rows, a.package), a.url);
    forall i | 0 <= i < |rows| && IsActive(rows[i], a.package, a.url.value) ensures i in ActiveIds(rows, a.package) {
    }
  }

  lemma OlderFirst(rows: seq<Row>, package: int, url: string, now: int)
    ensures var older := OlderIds(rows, package, Some(url));
            && (older != [] ==> older[0] < |rows|)
            && (older != [] && Recent(rows[older[0]], now) <==> GoesBackToRecent(rows, package, url, now))
  {
    var keep := (r: Row) => r.package == package && r.deactivatedAt.Some? && Some(r.url) == Some(url);
    var older := OlderIds(rows, package, Some(url));
    OlderMembers(rows, package, Some(url));
    forall i | 0 <= i < |rows| && IsOlder(rows[i], package, url) ensures i in older {
    }
    if older != [] {
      assert older[0] in older;
      IdsMembers(rows, keep);
      SortKeeps(Ids(rows, keep), Latest(rows));
      SortEnds(Ids(rows, keep), Latest(rows));
      assert forall i | i in older :: Latest(rows)(older[0], i);
    }
  }

  /** A run leaves its package without an active record exactly when the table and the arguments say so;
      the query for older records sends the deactivation before it, so a rollback usually keeps it. */
  lemma LosesActiveExactly(rows: seq<Row>, a: Arguments, valid: string -> bool, rows': seq<Row>, outcome: Outcome)
    requires Good(rows, valid) && Ran(rows, a, valid, rows', outcome)
    ensures !HasActive(rows', a.package) <==> LosesActive(rows, a)
  {
    LeavesActive(rows, a, valid, rows', outcome);
    OneToDeactivate(rows, a, valid);
    var reused := Reused(rows, ActiveIds(rows, a.package), a.url);
    if a.url.Some? {
      NotReused(rows, a);
    }
    if reused.None? && a.url.Some? {
      PlannedRecent(rows, a, valid);
    } else if reused.None? {
      NoUrlSchedules(rows, a, valid);
    }
  }

  /** Without a URL no older record is found. */
  lemma NoUrlSchedules(rows: seq<Row>, a: Arguments, valid: string -> bool)
    requires Good(rows, valid) && a.url.None? && Reused(rows, ActiveIds(rows, a.package), a.url).None?
    ensures var (writes, id) := Plan(rows, a, valid);
            var planned := Apply(rows, writes); id < |planned| && planned[id].updatedAt.None?
  {
    var writes := Deactivations(rows, ActiveIds(rows, a.package), a.url, a.clock.lookup);
    var mid := Apply(rows, writes);
    NoneLeftActive(rows, a);
    OlderMembers(mid, a.package, a.url);
    ApplySnoc(rows, writes, Addition(mid, a.package, a.url, a.clock.add, valid));
  }

  /** Such inputs exist: a package that moved from one valid URL to another and back within five days. */
  lemma ActiveLost(first: string, second: string, valid: string -> bool) returns (rows': seq<Row>, outcome: Outcome)
    requires first != second && ValidUrl(first, valid) && ValidUrl(second, valid)
    ensures var rows := [Row(0, first, Some(0), 0, Some(1)), Row(0, second, Some(1), 1, None)];
            var a := Arguments(0, Some(first), false, Clock(2, 2, 2, 2), 1);
            && Good(rows, valid) && LosesActive(rows, a)
            && Ran(rows, a, valid, rows', outcome) && outcome.Skipped? && !HasActive(rows', 0)
  {
    var rows := [Row(0, first, Some(0), 0, Some(1)), Row(0, second, Some(1), 1, None)];
    var a := Arguments(0, Some(first), false, Clock(2, 2, 2, 2), 1);
    assert rows[1].deactivatedAt.None?;
    assert IsOlder(rows[0], 0, first) && Recent(rows[0], 2);
    NotReused(rows, a);
    OneToDeactivate(rows, a, valid);
    PlannedRecent(rows, a, valid);
    var (writes, id) := Plan(rows, a, valid);
    rows', outcome := Apply(rows, writes[..1]), Skipped(Apply(rows, writes)[id].url);
    LosesActiveExactly(rows, a, valid, rows', outcome);
  }

  /** An invalid URL is stored as the empty text, so it is never found again: every run with it adds a
      further record and schedules it, however recent the last one is. */
  lemma InvalidUrlAlwaysAdds(rows: seq<Row>, a: Arguments, valid: string -> bool, rows': seq<Row>, outcome: Outcome)
    requires Good(rows, valid) && Ran(rows, a, valid, rows', outcome)
    requires a.url.Some? && a.url.value != "" && !valid(a.url.value)
    ensures |rows'| == |rows| + 1 && outcome == Scheduled(|rows|, "")
  {
    PlansExactly(rows, a, valid);
    var ids := ActiveIds(rows, a.package);
    var writes := Deactivations(rows, ids, a.url, a.clock.lookup);
    DeactivatedGood(rows, a, valid, |writes|);
    assert writes[..|writes|] == writes;
    var mid := Apply(rows, writes);
    ActiveMembers(rows, a.package);
    ReusedShape(rows, ids, a.url);
    var w := Addition(mid, a.package, a.url, a.clock.add, valid);
    ApplySnoc(rows, writes, w);
    OlderMembers(mid, a.package, a.url);
  }
}
