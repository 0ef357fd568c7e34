// Object keys for task results and for the base record of a package version
// (f8a_worker/storages/s3_data_base.py, f8a_worker/storages/s3_data.py), and the
// versions admitted by InitAnalysisFlow (f8a_worker/workers/init_analysis_flow.py).
module S3Keys {
  import opened Text

  datatype Epv = Epv(ecosystem: string, name: string, version: string)

  /** _construct_base_file_name. */
  function BaseName(e: Epv): string {
    e.ecosystem + "/" + e.name + "/" + e.version
  }

  /** _construct_task_result_object_key. */
  function TaskKey(e: Epv, task: string): string {
    BaseName(e) + "/" + task + ".json"
  }

  /** The key of store_base_file_record. */
  function BaseKey(e: Epv): string {
    BaseName(e) + ".json"
  }

  predicate Simple(e: Epv) {
    FreeOf(e.ecosystem, {'/'}) && FreeOf(e.version, {'/'})
  }

  /** What the admission pattern leaves through. */
  predicate Admitted(version: string) {
    FreeOf(version, {'*', 'X', 'x', '-', '>', '=', '<', '~', '^', '|', '/', ':', '+'})
  }

  /** A key leads through the ecosystem, the parts of the name and the version to the task. */
  lemma KeyLayout(e: Epv, task: string)
    requires Simple(e) && FreeOf(task, {'/'})
    ensures SplitOn(TaskKey(e, task), "/") == [e.ecosystem] + SplitOn(e.name, "/") + [e.version, task + ".json"]
    ensures SplitOn(BaseKey(e), "/") == [e.ecosystem] + SplitOn(e.name, "/") + [e.version + ".json"]
  {
    var front := e.ecosystem + "/" + e.name;
    SplitConcat(e.ecosystem, '/', e.name);
    SplitFree(e.ecosystem, "/");
    SplitEnd(front, '/', e.version);
    SplitEnd(front, '/', e.version + ".json");
    SplitEnd(BaseName(e), '/', task + ".json");
    assert e.ecosystem + ['/'] + e.name == front && front + ['/'] + e.version == BaseName(e);
    assert front + ['/'] + (e.version + ".json") == BaseKey(e);
    assert BaseName(e) + ['/'] + (task + ".json") == TaskKey(e, task);
  }

  lemma BaseNameInjective(e: Epv, f: Epv)
    requires Simple(e) && Simple(f) && BaseName(e) == BaseName(f)
    ensures e == f
  {
    CutAtLast(e.ecosystem + "/" + e.name, e.version, f.ecosystem + "/" + f.name, f.version, '/');
    CutAtFirst(e.ecosystem, e.name, f.ecosystem, f.name, '/');
  }

  lemma SuffixInjective(a: string, b: string)
    requires a + ".json" == b + ".json"
    ensures a == b
  {
    assert (a + ".json")[..|a|] == a && (b + ".json")[..|b|] == b;
  }

  /** Names may hold slashes; with the other parts slash-free, different results have different keys. */
  lemma TaskKeyInjective(e: Epv, task: string, f: Epv, task': string)
    requires Simple(e) && Simple(f) && FreeOf(task, {'/'}) && FreeOf(task', {'/'})
    ensures TaskKey(e, task) == TaskKey(f, task') <==> e == f && task == task'
  {
    if TaskKey(e, task) == TaskKey(f, task') {
      SuffixInjective(BaseName(e) + "/" + task, BaseName(f) + "/" + task');
      CutAtLast(BaseName(e), task, BaseName(f), task', '/');
      BaseNameInjective(e, f);
    }
  }

  /** The keys of admitted versions never clash. */
  lemma AdmittedKeysInjective(e: Epv, task: string, f: Epv, task': string)
    requires Admitted(e.version) && Admitted(f.version)
    requires FreeOf(e.ecosystem, {'/'}) && FreeOf(f.ecosystem, {'/'}) && FreeOf(task, {'/'}) && FreeOf(task', {'/'})
    ensures TaskKey(e, task) == TaskKey(f, task') <==> e == f && task == task'
  {
    TaskKeyInjective(e, task, f, task');
  }

  /** A base record has the key of a task result exactly when its package name ends in the version of
      the other package and its version is the task name; within one package version it never has. */
  lemma BaseMeetsTask(e: Epv, task: string, f: Epv)
    requires Simple(e) && Simple(f) && FreeOf(task, {'/'})
    ensures TaskKey(e, task) == BaseKey(f) <==> f == Epv(e.ecosystem, e.name + "/" + e.version, task)
    ensures TaskKey(e, task) != BaseKey(e)
  {
    var g := Epv(e.ecosystem, e.name + "/" + e.version, task);
    assert TaskKey(e, task) == BaseKey(g) by {
      assert BaseName(g) == BaseName(e) + "/" + task;
    }
    if TaskKey(e, task) == BaseKey(f) {
      SuffixInjective(BaseName(g), BaseName(f));
      BaseNameInjective(g, f);
    }
    assert |g.name| > |e.name|;
  }
}
