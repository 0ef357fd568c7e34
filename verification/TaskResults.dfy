// The task-result protocol: BaseTask.run (f8a_worker/base.py), store,
// store_error and retrieve (f8a_worker/storages/postgres_base.py), and the
// result collector (f8a_worker/workers/result_collector.py).
module TaskResults {
  import opened Common
  import opened Text
  import opened S3Keys

  // Names is a list of strings made from a set; nothing depends on its order.
  datatype Json = Null | Str(text: string) | Names(items: set<string>) | Obj(fields: map<string, Json>)

  type Doc = map<string, Json>

  datatype Row = Row(worker: string, analysis: int, result: Option<Doc>, error: bool)

  // ----- results -----

  /** is_real_task_result: None, {} and a lone version_id are not real. */
  predicate IsReal(result: Option<Doc>) {
    result.Some? && result.value != map[] && (|result.value| != 1 || "version_id" !in result.value)
  }

  /** What the collector leaves in place of a result. */
  function Reference(versionId: Json): Option<Doc> {
    Some(map["version_id" := versionId])
  }

  function AddAuditInfo(result: Doc, audit: Json, release: string): Doc {
    result["_audit" := audit]["_release" := Str(release)]
  }

  // What execute() did, and what run() makes of it.
  datatype Executed = Raised | Returned(result: Option<Doc>)
  datatype RunOutcome = AlreadyExists | Failed(stored: Option<Doc>) | Result(doc: Doc)

  /** `doc` is `result` with the two keys added or overwritten, and nothing else changed. */
  ghost predicate Audited(doc: Doc, result: Doc, audit: Json, release: string) {
    && doc.Keys == result.Keys + {"_audit", "_release"}
    && doc["_audit"] == audit && doc["_release"] == Str(release)
    && forall key | key in result && key !in {"_audit", "_release"} :: doc[key] == result[key]
  }

  /** BaseTask.run; `count` is the number of rows with this task id, `validate` refuses a result or
      completes it with its schema reference. */
  method Run(count: nat, executed: Executed, addAuditInfo: bool, audit: Json, release: string,
             validate: Doc -> Option<Doc>) returns (outcome: RunOutcome)
    ensures outcome == AlreadyExists <==> count > 0
    ensures count == 0 && executed.Raised? ==>
              if addAuditInfo then outcome.Failed? && outcome.stored.Some? && Audited(outcome.stored.value, map[], audit, release)
              else outcome == Failed(None)
    ensures addAuditInfo && outcome.Result? ==> IsReal(Some(outcome.doc))
    ensures addAuditInfo && outcome.Failed? && outcome.stored.Some? ==> IsReal(outcome.stored)
    ensures count == 0 && executed.Returned? ==>
              var doc := if executed.result.None? then map[] else executed.result.value;
              var checked := if doc == map[] then Some(doc) else validate(doc);
              if checked.None? then outcome == Failed(None)
              else outcome.Result? && if addAuditInfo then Audited(outcome.doc, checked.value, audit, release)
                                      else outcome.doc == checked.value
  {
    if count > 0 {
      return AlreadyExists;
    }
    AuditedIsReal(map[], audit, release);
    var result: Doc := map[];
    if executed.Raised? {
      if addAuditInfo {
        result := AddAuditInfo(result, audit, release);
        return Failed(Some(result));
      }
      return Failed(None);
    }
    if executed.result.Some? && executed.result.value != map[] {
      var checked := validate(executed.result.value);
      if checked.None? {
        return Failed(None);
      }
      result := checked.value;
    }
    AuditedIsReal(result, audit, release);
    if addAuditInfo {
      result := AddAuditInfo(result, audit, release);
    }
    outcome := Result(result);
  }

  /** A result with audit information is never mistaken for a reference. */
  lemma AuditedIsReal(result: Doc, audit: Json, release: string)
    ensures IsReal(Some(AddAuditInfo(result, audit, release)))
  {
    var doc := AddAuditInfo(result, audit, release);
    assert "_release" in doc.Keys - {"_audit"};
    assert doc.Keys == (doc.Keys - {"_audit"}) + {"_audit"};
    assert |doc.Keys| == |doc.Keys - {"_audit"}| + 1;
  }

  /** Without it, exactly the empty result and a lone version_id are. */
  lemma UnauditedIsReal(result: Doc)
    ensures IsReal(Some(result)) <==> result != map[] && result.Keys != {"version_id"}
  {
    if |result| == 1 && "version_id" in result {
      assert |result.Keys - {"version_id"}| == 0;
      assert result.Keys == {"version_id"};
    }
  }

  // ----- the stores and the collector as interleaved steps -----

  // One collection of `analysis`, which belongs to `epv`. `todo` are the rows still to be looked at,
  // `pending` those whose replacement has not reached the database yet.
  datatype World = World(table: map<string, Row>, s3: map<string, Doc>, todo: seq<string>, pending: set<string>)

  datatype Step =
    | Store(id: string, row: Row)
    | StoreError(id: string, row: Row, alreadyExists: bool)
    | StartCollection(ids: seq<string>)
    | Upload
    | Flush(id: string, versionId: Json)
    | Abandon
    | BaseRecord(record: Doc)

  predicate IsUpper(c: char) {
    'A' <= c <= 'Z'
  }

  predicate Bookkeeping(worker: string) {
    worker != "" && IsUpper(worker[0])
  }

  function Insert(table: map<string, Row>, id: string, row: Row): map<string, Row> {
    if id in table then table else table[id := row]
  }

  /** store_error keeps no errors of the init tasks and of refused duplicates. */
  predicate Ignored(row: Row, alreadyExists: bool) {
    row.worker in {"InitPackageFlow", "InitAnalysisFlow"} || alreadyExists
  }

  predicate Enabled(w: World, s: Step, analysis: int) {
    match s
    case StartCollection(ids) => forall id | id in ids :: id in w.table && w.table[id].analysis == analysis
    case Upload => w.todo != [] && w.todo[0] in w.table
    case Flush(id, _) => id in w.pending && id in w.table
    case _ => true
  }

  predicate Collects(row: Row) {
    !Bookkeeping(row.worker) && IsReal(row.result)
  }

  function Do(w: World, s: Step, epv: Epv, analysis: int): World
    requires Enabled(w, s, analysis)
  {
    match s
    case Store(id, row) => w.(table := Insert(w.table, id, row))
    case StoreError(id, row, duplicate) => if Ignored(row, duplicate) then w else w.(table := Insert(w.table, id, row))
    case StartCollection(ids) => w.(todo := ids, pending := {})
    case Upload =>
      var row := w.table[w.todo[0]];
      if Collects(row) then
        World(w.table, w.s3[TaskKey(epv, row.worker) := row.result.value], w.todo[1..], w.pending + {w.todo[0]})
      else w.(todo := w.todo[1..])
    case Flush(id, versionId) =>
      w.(table := w.table[id := w.table[id].(result := Reference(versionId))], pending := w.pending - {id})
    case Abandon => w.(todo := [], pending := {})
    case BaseRecord(record) => w.(s3 := w.s3[BaseKey(epv) := BaseContent(w.table, w.s3, record, epv, analysis)])
  }

  // ----- the base record -----

  /** The workers of all rows of an analysis, as Analysis.analyses lists them. */
  function Workers(table: map<string, Row>, analysis: int): set<string> {
    set id | id in table && table[id].analysis == analysis :: table[id].worker
  }

  /** The analyses listed in the stored base record; none when there is no record yet. */
  function Listed(s3: map<string, Doc>, epv: Epv): set<string> {
    if BaseKey(epv) !in s3 then {}
    else
      var doc := s3[BaseKey(epv)];
      if "analyses" in doc && doc["analyses"].Names? then doc["analyses"].items else {}
  }

  /** _base_file_content: the record of the analysis, with the old list and the new workers joined and
      book-keeping tasks left out. */
  function BaseContent(table: map<string, Row>, s3: map<string, Doc>, record: Doc, epv: Epv, analysis: int): Doc {
    var kept := set a | a in Listed(s3, epv) + Workers(table, analysis) && !Bookkeeping(a);
    (record - {"access_count"})["analyses" := Names(kept)]
  }

  /** The row a step offers for an id. */
  function Offered(s: Step, id: string): Option<Row> {
    match s
    case Store(i, row) => if i == id then Some(row) else None
    case StoreError(i, row, duplicate) => if i == id && !Ignored(row, duplicate) then Some(row) else None
    case _ => None
  }

  /** The first row offered for an id in the whole run. */
  function First(steps: seq<Step>, id: string): Option<Row> {
    if steps == [] then None
    else if Offered(steps[0], id).Some? then Offered(steps[0], id)
    else First(steps[1..], id)
  }

  predicate IsRun(w: World, steps: seq<Step>, epv: Epv, analysis: int)
    decreases |steps|
  {
    steps == [] || (Enabled(w, steps[0], analysis) && IsRun(Do(w, steps[0], epv, analysis), steps[1..], epv, analysis))
  }

  function After(w: World, steps: seq<Step>, epv: Epv, analysis: int): World
    requires IsRun(w, steps, epv, analysis)
    decreases |steps|
  {
    if steps == [] then w else After(Do(w, steps[0], epv, analysis), steps[1..], epv, analysis)
  }

  datatype Retrieved = NoResultFound | WrongTask | Found(doc: Doc) | NoSuchKey

  /** PostgresBase.retrieve, for rows of the collected analysis. */
  function Retrieve(w: World, task: string, id: string, epv: Epv): Retrieved {
    if id !in w.table then NoResultFound
    else if w.table[id].worker != task then WrongTask
    else if IsReal(w.table[id].result) then Found(w.table[id].result.value)
    else if TaskKey(epv, task) in w.s3 then Found(w.s3[TaskKey(epv, task)])
    else NoSuchKey
  }

  // ----- safety -----

  /** The first rows of one analysis have distinct, slash-free worker names. */
  ghost predicate DistinctWorkers(first: map<string, Row>, analysis: int) {
    && (forall i, j | i in first && j in first && i != j && first[i].analysis == first[j].analysis == analysis ::
          first[i].worker != first[j].worker)
    && (forall i | i in first && first[i].analysis == analysis :: FreeOf(first[i].worker, {'/'}))
  }

  /** The row is one to be collected, and its S3 copy holds its first result. */
  ghost predicate Copied(w: World, first: map<string, Row>, id: string, epv: Epv)
    requires id in first
  {
    var key := TaskKey(epv, first[id].worker);
    Collects(first[id]) && key in w.s3 && w.s3[key] == first[id].result.value
  }

  ghost predicate Faithful(w: World, first: map<string, Row>, epv: Epv, analysis: int) {
    && w.table.Keys == first.Keys
    && (forall id | id in first ::
          || w.table[id] == first[id]
          || (&& first[id].analysis == analysis && Copied(w, first, id, epv)
              && w.table[id].worker == first[id].worker && w.table[id].analysis == analysis
              && !IsReal(w.table[id].result)))
    && (forall id | id in w.pending :: id in first && first[id].analysis == analysis && Copied(w, first, id, epv))
    && (forall id | id in w.todo :: id in first && first[id].analysis == analysis)
  }

  function InsertFirst(first: map<string, Row>, s: Step): map<string, Row> {
    match s
    case Store(id, row) => Insert(first, id, row)
    case StoreError(id, row, duplicate) => if Ignored(row, duplicate) then first else Insert(first, id, row)
    case _ => first
  }

  /** Writing one key leaves the copies under other keys alone. */
  lemma CopiesSurvive(w: World, first: map<string, Row>, epv: Epv, analysis: int, key: string, doc: Doc)
    requires Simple(epv) && DistinctWorkers(first, analysis) && Faithful(w, first, epv, analysis)
    requires key == BaseKey(epv) ||
             (exists id :: id in first && first[id].analysis == analysis && IsReal(first[id].result)
                           && key == TaskKey(epv, first[id].worker) && doc == first[id].result.value)
    ensures Faithful(w.(s3 := w.s3[key := doc]), first, epv, analysis)
  {
    var w' := w.(s3 := w.s3[key := doc]);
    forall id | id in first && first[id].analysis == analysis && Copied(w, first, id, epv)
      ensures Copied(w', first, id, epv)
    {
      if key == BaseKey(epv) {
        BaseMeetsTask(epv, first[id].worker, epv);
      } else {
        var other :| other in first && first[other].analysis == analysis && key == TaskKey(epv, first[other].worker)
                     && IsReal(first[other].result) && doc == first[other].result.value;
        TaskKeyInjective(epv, first[id].worker, epv, first[other].worker);
      }
    }
  }

  lemma UploadFaithful(w: World, first: map<string, Row>, epv: Epv, analysis: int)
    requires Simple(epv) && DistinctWorkers(first, analysis) && Faithful(w, first, epv, analysis)
    requires Enabled(w, Upload, analysis)
    ensures Faithful(Do(w, Upload, epv, analysis), first, epv, analysis)
  {
    var id := w.todo[0];
    assert id in w.todo;
    assert forall i | i in w.todo[1..] :: i in w.todo;
    var row := w.table[id];
    if Collects(row) {
      assert row == first[id];
      CopiesSurvive(w, first, epv, analysis, TaskKey(epv, row.worker), row.result.value);
    }
  }

  lemma InsertFaithful(w: World, id: string, row: Row, first: map<string, Row>, epv: Epv, analysis: int)
    requires Faithful(w, first, epv, analysis)
    ensures Faithful(w.(table := Insert(w.table, id, row)), Insert(first, id, row), epv, analysis)
  {
    var (w', first') := (w.(table := Insert(w.table, id, row)), Insert(first, id, row));
    assert forall i | i in first :: i in first' && first'[i] == first[i] && w'.table[i] == w.table[i];
  }

  lemma FlushFaithful(w: World, id: string, versionId: Json, first: map<string, Row>, epv: Epv, analysis: int)
    requires Faithful(w, first, epv, analysis) && Enabled(w, Flush(id, versionId), analysis)
    ensures Faithful(Do(w, Flush(id, versionId), epv, analysis), first, epv, analysis)
  {
    var w' := Do(w, Flush(id, versionId), epv, analysis);
    assert !IsReal(w'.table[id].result);
    assert forall i | i in w.table && i != id :: w'.table[i] == w.table[i];
  }

  lemma StepFaithful(w: World, s: Step, first: map<string, Row>, epv: Epv, analysis: int)
    requires Simple(epv) && Faithful(w, first, epv, analysis) && Enabled(w, s, analysis)
    requires DistinctWorkers(InsertFirst(first, s), analysis)
    ensures Faithful(Do(w, s, epv, analysis), InsertFirst(first, s), epv, analysis)
  {
    match s
    case Store(id, row) => InsertFaithful(w, id, row, first, epv, analysis);
    case StoreError(id, row, _) => InsertFaithful(w, id, row, first, epv, analysis);
    case StartCollection(_) =>
    case Upload => UploadFaithful(w, first, epv, analysis);
    case Flush(id, versionId) => FlushFaithful(w, id, versionId, first, epv, analysis);
    case Abandon =>
    case BaseRecord(record) =>
      CopiesSurvive(w, first, epv, analysis, BaseKey(epv), BaseContent(w.table, w.s3, record, epv, analysis));
  }

  /** The first rows offered in a run, added to those already there. */
  function FirstRows(first: map<string, Row>, steps: seq<Step>): map<string, Row>
    decreases |steps|
  {
    if steps == [] then first else FirstRows(InsertFirst(first, steps[0]), steps[1..])
  }

  lemma {:induction false} FirstRowsGrow(first: map<string, Row>, steps: seq<Step>)
    ensures forall id | id in first :: id in FirstRows(first, steps) && FirstRows(first, steps)[id] == first[id]
    decreases |steps|
  {
    if steps != [] {
      FirstRowsGrow(InsertFirst(first, steps[0]), steps[1..]);
    }
  }

  lemma {:induction false} FirstRowsAreFirst(first: map<string, Row>, steps: seq<Step>, id: string)
    requires id !in first
    ensures First(steps, id) == if id in FirstRows(first, steps) then Some(FirstRows(first, steps)[id]) else None
    decreases |steps|
  {
    if steps != [] {
      if Offered(steps[0], id).Some? {
        FirstRowsGrow(InsertFirst(first, steps[0]), steps[1..]);
      } else {
        FirstRowsAreFirst(InsertFirst(first, steps[0]), steps[1..], id);
      }
    }
  }

  lemma {:induction false} RunFaithful(w: World, steps: seq<Step>, first: map<string, Row>, epv: Epv, analysis: int)
    requires Simple(epv) && Faithful(w, first, epv, analysis) && IsRun(w, steps, epv, analysis)
    requires DistinctWorkers(FirstRows(first, steps), analysis)
    ensures Faithful(After(w, steps, epv, analysis), FirstRows(first, steps), epv, analysis)
    decreases |steps|
  {
    if steps != [] {
      var next := InsertFirst(first, steps[0]);
      FirstRowsGrow(next, steps[1..]);
      assert DistinctWorkers(next, analysis);
      StepFaithful(w, steps[0], first, epv, analysis);
      RunFaithful(Do(w, steps[0], epv, analysis), steps[1..], next, epv, analysis);
    }
  }

  /** At every point of every interleaving, whichever writes came later, a task whose first stored result
      is real is retrieved with exactly that result, before, during and after the collection. */
  lemma RetrieveFirst(s3: map<string, Doc>, steps: seq<Step>, epv: Epv, analysis: int, id: string)
    requires Simple(epv)
    requires IsRun(World(map[], s3, [], {}), steps, epv, analysis)
    requires DistinctWorkers(FirstRows(map[], steps), analysis)
    ensures var w := After(World(map[], s3, [], {}), steps, epv, analysis);
            && (id in w.table <==> First(steps, id).Some?)
            && (First(steps, id).None? ==> forall task :: Retrieve(w, task, id, epv) == NoResultFound)
            && (First(steps, id).Some? ==>
                  forall task | task != First(steps, id).value.worker :: Retrieve(w, task, id, epv) == WrongTask)
            && (First(steps, id).Some? && IsReal(First(steps, id).value.result) ==>
                  Retrieve(w, First(steps, id).value.worker, id, epv) == Found(First(steps, id).value.result.value))
  {
    RunFaithful(World(map[], s3, [], {}), steps, map[], epv, analysis);
    FirstRowsAreFirst(map[], steps, id);
  }

  // ----- what the base record lists -----

  /** Between two points of a run, nothing but book-keeping tasks leaves the list, and only workers of the
      analysis enter it. */
  ghost predicate Grows(w: World, later: World, epv: Epv, analysis: int) {
    && Workers(w.table, analysis) <= Workers(later.table, analysis)
    && (forall a | a in Listed(w.s3, epv) && !Bookkeeping(a) :: a in Listed(later.s3, epv))
    && (forall a | a in Listed(later.s3, epv) :: a in Listed(w.s3, epv) || a in Workers(later.table, analysis))
  }

  lemma RowsKept(table: map<string, Row>, later: map<string, Row>, analysis: int)
    requires forall id | id in table ::
               id in later && later[id].worker == table[id].worker && later[id].analysis == table[id].analysis
    ensures Workers(table, analysis) <= Workers(later, analysis)
  {
    forall a | a in Workers(table, analysis) ensures a in Workers(later, analysis) {
      var id :| id in table && table[id].analysis == analysis && table[id].worker == a;
      assert id in later;
    }
  }

  lemma StepGrows(w: World, s: Step, first: map<string, Row>, epv: Epv, analysis: int)
    requires Simple(epv) && Faithful(w, first, epv, analysis) && Enabled(w, s, analysis)
    requires DistinctWorkers(first, analysis)
    ensures Grows(w, Do(w, s, epv, analysis), epv, analysis)
  {
    var later := Do(w, s, epv, analysis);
    RowsKept(w.table, later.table, analysis);
    if s.Upload? {
      assert w.todo[0] in w.todo;
      BaseMeetsTask(epv, w.table[w.todo[0]].worker, epv);
    }
  }

  lemma {:induction false} RunGrows(w: World, steps: seq<Step>, first: map<string, Row>, epv: Epv, analysis: int)
    requires Simple(epv) && Faithful(w, first, epv, analysis) && IsRun(w, steps, epv, analysis)
    requires DistinctWorkers(FirstRows(first, steps), analysis)
    ensures Grows(w, After(w, steps, epv, analysis), epv, analysis)
    decreases |steps|
  {
    if steps != [] {
      var next := InsertFirst(first, steps[0]);
      FirstRowsGrow(next, steps[1..]);
      assert forall id | id in first :: id in next && next[id] == first[id];
      assert DistinctWorkers(next, analysis) && DistinctWorkers(first, analysis);
      StepGrows(w, steps[0], first, epv, analysis);
      StepFaithful(w, steps[0], first, epv, analysis);
      RunGrows(Do(w, steps[0], epv, analysis), steps[1..], next, epv, analysis);
    }
  }

  /** Whenever the base record of a package version has been written, in every interleaving, it lists
      exactly the tasks with a row in the analysis and those listed before the run, book-keeping tasks
      left out of both. */
  lemma BaseRecordListsAll(w: World, steps: seq<Step>, record: Doc, first: map<string, Row>, epv: Epv, analysis: int, task: string)
    requires Simple(epv) && Faithful(w, first, epv, analysis) && IsRun(w, steps + [BaseRecord(record)], epv, analysis)
    requires DistinctWorkers(FirstRows(first, steps), analysis)
    ensures var later := After(w, steps + [BaseRecord(record)], epv, analysis);
            task in Listed(later.s3, epv) <==>
            !Bookkeeping(task) && (task in Listed(w.s3, epv) ||
                                   exists id :: id in later.table && later.table[id].analysis == analysis && later.table[id].worker == task)
    ensures var later := After(w, steps + [BaseRecord(record)], epv, analysis);
            && BaseKey(epv) in later.s3
            && var doc := later.s3[BaseKey(epv)];
               && doc.Keys == record.Keys - {"access_count"} + {"analyses"}
               && forall key | key in doc && key != "analyses" :: doc[key] == record[key]
  {
    PrefixRun(w, steps, BaseRecord(record), epv, analysis);
    RunGrows(w, steps, first, epv, analysis);
    RunSnoc(w, steps, BaseRecord(record), epv, analysis);
  }

  lemma {:induction false} PrefixRun(w: World, steps: seq<Step>, s: Step, epv: Epv, analysis: int)
    requires IsRun(w, steps + [s], epv, analysis)
    ensures IsRun(w, steps, epv, analysis) && Enabled(After(w, steps, epv, analysis), s, analysis)
    decreases |steps|
  {
    var all := steps + [s];
    if steps == [] {
      assert all[0] == s;
    } else {
      assert all[0] == steps[0] && all[1..] == steps[1..] + [s];
      PrefixRun(Do(w, steps[0], epv, analysis), steps[1..], s, epv, analysis);
    }
  }

  // ----- the code of the collector -----

  /** `session` is the table with the pending rows replaced by references. */
  ghost predicate Replaced(session: map<string, Row>, table: map<string, Row>, pending: seq<string>, versionIds: string -> Json) {
    && session.Keys == table.Keys
    && forall id | id in session ::
         session[id] == if id in pending then table[id].(result := Reference(versionIds(id))) else table[id]
  }

  /** A real result of a worker whose name does not start with a capital. */
  predicate ToCollect(row: Row) {
    && (row.worker == "" || !('A' <= row.worker[0] <= 'Z'))
    && row.result.Some? && row.result.value != map[] && row.result.value.Keys != {"version_id"}
  }

  lemma CollectsThese(ids: set<string>, table: map<string, Row>)
    requires ids <= table.Keys
    ensures forall id | id in ids :: Collects(table[id]) <==> ToCollect(table[id])
  {
    forall id | id in ids && table[id].result.Some? ensures Collects(table[id]) <==> ToCollect(table[id]) {
      UnauditedIsReal(table[id].result.value);
    }
  }

  /** Exactly the results to collect among `ids` have been replaced by references to their versions. */
  ghost predicate Referenced(session: map<string, Row>, table: map<string, Row>, ids: seq<string>, versionIds: string -> Json) {
    && session.Keys == table.Keys
    && forall id | id in session ::
         session[id] == if id in ids && ToCollect(table[id])
                        then table[id].(result := Some(map["version_id" := versionIds(id)])) else table[id]
  }

  lemma ReplacedRows(session: map<string, Row>, table: map<string, Row>, pending: seq<string>, ids: seq<string>,
                     versionIds: string -> Json)
    requires Replaced(session, table, pending, versionIds) && forall id | id in ids :: id in table
    requires forall id :: id in pending <==> id in ids && Collects(table[id])
    ensures Referenced(session, table, ids, versionIds)
  {
    CollectsThese(table.Keys, table);
  }

  ghost predicate NoStores(steps: seq<Step>) {
    forall s | s in steps :: !s.Store? && !s.StoreError?
  }

  lemma {:induction false} NoFurtherRows(first: map<string, Row>, steps: seq<Step>)
    requires NoStores(steps)
    ensures FirstRows(first, steps) == first
    decreases |steps|
  {
    if steps != [] {
      assert steps[0] in steps;
      NoFurtherRows(first, steps[1..]);
    }
  }

  /** Each collected result is what its S3 object holds. */
  ghost predicate HoldsCopies(s3: map<string, Doc>, table: map<string, Row>, ids: seq<string>, epv: Epv) {
    forall id | id in ids && id in table && ToCollect(table[id]) ::
      TaskKey(epv, table[id].worker) in s3 && s3[TaskKey(epv, table[id].worker)] == table[id].result.value
  }

  lemma ReplacedAreCopied(table: map<string, Row>, s3: map<string, Doc>, steps: seq<Step>, epv: Epv, analysis: int,
                          ids: seq<string>, versionIds: string -> Json)
    requires Simple(epv) && DistinctWorkers(table, analysis) && NoStores(steps)
    requires IsRun(World(table, s3, [], {}), steps, epv, analysis)
    requires Referenced(After(World(table, s3, [], {}), steps, epv, analysis).table, table, ids, versionIds)
    ensures HoldsCopies(After(World(table, s3, [], {}), steps, epv, analysis).s3, table, ids, epv)
  {
    NoFurtherRows(table, steps);
    RunFaithful(World(table, s3, [], {}), steps, table, epv, analysis);
  }

  class Storage {
    var table: map<string, Row>
    var s3: map<string, Doc>

    constructor ()
      ensures table == map[] && s3 == map[]
    {
      table, s3 := map[], map[];
    }

    /** The unique constraint on worker_id: a second writer gets an IntegrityError, which is swallowed. */
    method Save(id: string, row: Row)
      modifies this
      ensures table == (if id in old(table) then old(table) else old(table)[id := row]) && s3 == old(s3)
    {
      if id !in table {
        table := table[id := row];
      }
    }

    method SaveError(id: string, row: Row, alreadyExists: bool)
      modifies this
      ensures s3 == old(s3)
      ensures table == if row.worker in {"InitPackageFlow", "InitAnalysisFlow"} || alreadyExists || id in old(table)
                       then old(table) else old(table)[id := row]
    {
      if Ignored(row, alreadyExists) {
        return;
      }
      Save(id, row);
    }

    /** The loop of do_run: uploads every real, lower-case result and replaces it in the session. */
    method UploadAll(ids: seq<string>, epv: Epv, analysis: int, versionIds: string -> Json)
      returns (session: map<string, Row>, ghost steps: seq<Step>, ghost pending: seq<string>)
      requires forall id | id in ids :: id in table && table[id].analysis == analysis
      requires forall i, j | 0 <= i < j < |ids| :: ids[i] != ids[j]
      modifies this`s3
      ensures IsRun(World(table, old(s3), [], {}), steps, epv, analysis)
      ensures After(World(table, old(s3), [], {}), steps, epv, analysis) == World(table, s3, [], set id | id in pending)
      ensures forall id :: id in pending <==> id in ids && Collects(table[id])
      ensures forall i, j | 0 <= i < j < |pending| :: pending[i] != pending[j]
      ensures Replaced(session, table, pending, versionIds) && NoStores(steps)
    {
      ghost var start := World(table, s3, [], {});
      session, steps, pending := table, [StartCollection(ids)], [];
      for k := 0 to |ids|
        invariant IsRun(start, steps, epv, analysis)
        invariant After(start, steps, epv, analysis) == World(table, s3, ids[k..], set id | id in pending)
        invariant forall id :: id in pending <==> id in ids[..k] && Collects(table[id])
        invariant forall i, j | 0 <= i < j < |pending| :: pending[i] != pending[j]
        invariant Replaced(session, table, pending, versionIds) && NoStores(steps)
      {
        var id := ids[k];
        var row := session[id];
        assert id in ids && id !in pending && ids[k..][1..] == ids[k + 1..];
        RunSnoc(start, steps, Upload, epv, analysis);
        steps := steps + [Upload];
        if !Bookkeeping(row.worker) && IsReal(row.result) {
          s3 := s3[TaskKey(epv, row.worker) := row.result.value];
          session := session[id := row.(result := Reference(versionIds(id)))];
          pending := pending + [id];
        }
      }
      assert ids[..|ids|] == ids && ids[|ids|..] == [];
    }

    /** do_run: uploads, commits the references, then writes the base record. The effect is that of a run
        of the steps above. */
    method DoRun(ids: seq<string>, epv: Epv, analysis: int, versionIds: string -> Json, record: Doc)
      returns (ghost steps: seq<Step>)
      requires forall id | id in ids :: id in table && table[id].analysis == analysis
      requires forall i, j | 0 <= i < j < |ids| :: ids[i] != ids[j]
      modifies this
      ensures IsRun(World(old(table), old(s3), [], {}), steps, epv, analysis)
      ensures After(World(old(table), old(s3), [], {}), steps, epv, analysis) == World(table, s3, [], {})
      ensures Referenced(table, old(table), ids, versionIds)
      ensures Simple(epv) && DistinctWorkers(old(table), analysis) ==> HoldsCopies(s3, old(table), ids, epv)
      ensures steps != [] && steps[|steps| - 1] == BaseRecord(record)
    {
      ghost var start := World(table, s3, [], {});
      var session;
      ghost var pending;
      session, steps, pending := UploadAll(ids, epv, analysis, versionIds);
      steps := CommitSteps(start, steps, pending, epv, analysis, versionIds, table, s3, session);
      table := session;
      RunSnoc(start, steps, BaseRecord(record), epv, analysis);
      steps := steps + [BaseRecord(record)];
      s3 := s3[BaseKey(epv) := BaseContent(table, s3, record, epv, analysis)];
      ReplacedRows(table, old(table), pending, ids, versionIds);
      if Simple(epv) && DistinctWorkers(old(table), analysis) {
        ReplacedAreCopied(old(table), old(s3), steps, epv, analysis, ids, versionIds);
      }
    }
  }

  lemma {:induction false} RunSnoc(w: World, steps: seq<Step>, s: Step, epv: Epv, analysis: int)
    requires IsRun(w, steps, epv, analysis) && Enabled(After(w, steps, epv, analysis), s, analysis)
    ensures IsRun(w, steps + [s], epv, analysis)
    ensures After(w, steps + [s], epv, analysis) == Do(After(w, steps, epv, analysis), s, epv, analysis)
    decreases |steps|
  {
    var all := steps + [s];
    if steps == [] {
      assert all == [s] && all[1..] == [];
    } else {
      assert all[1..] == steps[1..] + [s];
      RunSnoc(Do(w, steps[0], epv, analysis), steps[1..], s, epv, analysis);
    }
  }

  /** The commit makes the pending references visible one after the other. */
  lemma {:induction false} CommitSteps(start: World, steps: seq<Step>, pending: seq<string>, epv: Epv, analysis: int,
                                       versionIds: string -> Json, table: map<string, Row>, s3: map<string, Doc>,
                                       session: map<string, Row>) returns (all: seq<Step>)
    requires IsRun(start, steps, epv, analysis)
    requires After(start, steps, epv, analysis) == World(table, s3, [], set id | id in pending)
    requires Replaced(session, table, pending, versionIds) && forall id | id in pending :: id in table
    requires forall i, j | 0 <= i < j < |pending| :: pending[i] != pending[j]
    requires NoStores(steps)
    ensures NoStores(all)
    ensures IsRun(start, all, epv, analysis) && After(start, all, epv, analysis) == World(session, s3, [], {})
    decreases |pending|
  {
    if pending == [] {
      assert session == table;
      return steps;
    }
    var id := pending[0];
    assert pending == [id] + pending[1..];
    var flush := Flush(id, versionIds(id));
    RunSnoc(start, steps, flush, epv, analysis);
    var table' := table[id := table[id].(result := Reference(versionIds(id)))];
    assert (set i | i in pending) - {id} == set i | i in pending[1..];
    all := CommitSteps(start, steps + [flush], pending[1..], epv, analysis, versionIds, table', s3, session);
  }
}
