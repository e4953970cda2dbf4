/** The list of tasks offered for a workspace: for every module of the project found
    there, a Build task, a Run task when the module's type mentions `app`, and a Test
    task. The project lookup is an input. */
module TaskService {
  import opened Wrappers
  import opened Text

  datatype TaskType = Build | Run | Test | Clean | ShowTasks

  datatype AmperTask = AmperTask(taskType: TaskType, name: Option<string>)

  datatype AmperModule = AmperModule(name: string, path: string, moduleType: string)

  datatype AmperProject = AmperProject(rootPath: string, modules: seq<AmperModule>)

  /** One entry of the list: its module and its task. */
  datatype ModuleTask = ModuleTask(moduleName: string, task: AmperTask)

  datatype WorkspaceTasks = WorkspaceTasks(project: AmperProject, tasks: seq<ModuleTask>)

  /** The simplified application check: the type contains `app` anywhere. */
  predicate IsApp(m: AmperModule) {
    Contains(m.moduleType, "app")
  }

  function TaskFor(m: AmperModule, t: TaskType): ModuleTask {
    ModuleTask(m.name, AmperTask(t, None))
  }

  /** The tasks of one module, in the order they are pushed. */
  function ModuleTasks(m: AmperModule): (r: seq<ModuleTask>)
    ensures |r| == if IsApp(m) then 3 else 2
    ensures forall i :: 0 <= i < |r| ==> r[i].moduleName == m.name && r[i].task.name == None
    ensures r[0].task.taskType == Build && r[|r| - 1].task.taskType == Test
    ensures (exists i :: 0 <= i < |r| && r[i].task.taskType == Run) <==> IsApp(m)
  {
    if IsApp(m) then
      var r := [TaskFor(m, Build), TaskFor(m, Run), TaskFor(m, Test)];
      assert r[1].task.taskType == Run;
      r
    else [TaskFor(m, Build), TaskFor(m, Test)]
  }

  /** How many modules count as applications. */
  function AppCount(ms: seq<AmperModule>): (r: nat)
    ensures r <= |ms|
    decreases |ms|
  {
    if |ms| == 0 then 0
    else AppCount(ms[..|ms| - 1]) + (if IsApp(ms[|ms| - 1]) then 1 else 0)
  }

  /** The whole list, module by module. Only Build, Run and Test are produced. */
  function TasksOf(ms: seq<AmperModule>): (r: seq<ModuleTask>)
    ensures |r| == 2 * |ms| + AppCount(ms)
    ensures forall i :: 0 <= i < |r| ==> r[i].task.taskType in {Build, Run, Test}
    ensures forall i :: 0 <= i < |r| ==> exists k :: 0 <= k < |ms| && r[i].moduleName == ms[k].name
    decreases |ms|
  {
    if |ms| == 0 then []
    else
      var prev := TasksOf(ms[..|ms| - 1]);
      var own := ModuleTasks(ms[|ms| - 1]);
      var r := prev + own;
      assert forall i :: |prev| <= i < |r| ==> r[i] == own[i - |prev|];
      assert forall i :: |prev| <= i < |r| ==> r[i].task.taskType in {Build, Run, Test} by {
        if IsApp(ms[|ms| - 1]) {
          assert own == [TaskFor(ms[|ms| - 1], Build), TaskFor(ms[|ms| - 1], Run), TaskFor(ms[|ms| - 1], Test)];
        } else {
          assert own == [TaskFor(ms[|ms| - 1], Build), TaskFor(ms[|ms| - 1], Test)];
        }
      }
      r
  }

  /** `getTasksForWorkspace`, given what the project lookup found: nothing when no
      project was found, otherwise that project, unchanged, with its task list. */
  function GetTasksForWorkspace(found: Option<AmperProject>): (r: Option<WorkspaceTasks>)
    ensures r.None? <==> found.None?
    ensures r.Some? ==> r.value.project == found.value
    ensures r.Some? ==> |r.value.tasks| == 2 * |found.value.modules| + AppCount(found.value.modules)
  {
    match found
    case None => None
    case Some(project) => Some(WorkspaceTasks(project, TasksOf(project.modules)))
  }

  // ---------------------------------------------------------------------------
  // The tasks each module gets
  // ---------------------------------------------------------------------------

  /** Task types listed for one module name, in list order. */
  function TypesFor(ts: seq<ModuleTask>, name: string): seq<TaskType>
    decreases |ts|
  {
    if |ts| == 0 then []
    else
      TypesFor(ts[..|ts| - 1], name)
      + (if ts[|ts| - 1].moduleName == name then [ts[|ts| - 1].task.taskType] else [])
  }

  lemma {:induction false} TypesForAppend(a: seq<ModuleTask>, b: seq<ModuleTask>, name: string)
    ensures TypesFor(a + b, name) == TypesFor(a, name) + TypesFor(b, name)
    decreases |b|
  {
    if |b| == 0 {
      assert a + b == a;
    } else {
      var init := b[..|b| - 1];
      assert (a + b)[..|a + b| - 1] == a + init;
      TypesForAppend(a, init, name);
    }
  }

  /** Task types every module of a given kind gets. */
  function ExpectedTypes(m: AmperModule): seq<TaskType> {
    if IsApp(m) then [Build, Run, Test] else [Build, Test]
  }

  lemma ModuleTypes(m: AmperModule, name: string)
    ensures TypesFor(ModuleTasks(m), name) == if m.name == name then ExpectedTypes(m) else []
  {
    var a, b, c := TaskFor(m, Build), TaskFor(m, Run), TaskFor(m, Test);
    TypesForOne(a, name);
    TypesForOne(b, name);
    TypesForOne(c, name);
    if IsApp(m) {
      TypesForAppend([a], [b], name);
      TypesForAppend([a, b], [c], name);
      assert [a, b] + [c] == ModuleTasks(m);
    } else {
      TypesForAppend([a], [c], name);
      assert [a] + [c] == ModuleTasks(m);
    }
  }

  lemma TypesForOne(t: ModuleTask, name: string)
    ensures TypesFor([t], name) == if t.moduleName == name then [t.task.taskType] else []
  {
    assert [t][..0] == [];
  }

  /** The entries for a name: those of the earlier modules, then the last module's. */
  lemma TypesForLast(ms: seq<AmperModule>, name: string)
    requires |ms| > 0
    ensures TypesFor(TasksOf(ms), name)
      == TypesFor(TasksOf(ms[..|ms| - 1]), name) + (if ms[|ms| - 1].name == name then ExpectedTypes(ms[|ms| - 1]) else [])
  {
    var n := |ms|;
    var init := ms[..n - 1];
    assert TasksOf(ms) == TasksOf(init) + ModuleTasks(ms[n - 1]);
    TypesForAppend(TasksOf(init), ModuleTasks(ms[n - 1]), name);
    ModuleTypes(ms[n - 1], name);
  }

  /** No two modules share a name. */
  predicate UniqueNames(ms: seq<AmperModule>) {
    forall i, j :: 0 <= i < j < |ms| ==> ms[i].name != ms[j].name
  }

  /** Dropping the last module keeps the other names unique, and an earlier module
      keeps its place and does not share the last module's name. */
  lemma UniqueNamesInit(ms: seq<AmperModule>, k: nat)
    requires k < |ms| - 1 && UniqueNames(ms)
    ensures UniqueNames(ms[..|ms| - 1])
    ensures ms[..|ms| - 1][k] == ms[k] && ms[|ms| - 1].name != ms[k].name
  {
  }

  /** No earlier module shares the last module's name. */
  lemma LastNameFresh(ms: seq<AmperModule>, init: seq<AmperModule>)
    requires |ms| > 0 && UniqueNames(ms) && init == ms[..|ms| - 1]
    ensures forall i :: 0 <= i < |init| ==> init[i].name != ms[|ms| - 1].name
  {
  }

  /** When module names are unique, a module's entries are exactly Build, then Run
      if it is an application, then Test. */
  lemma {:induction false} TasksPerModule(ms: seq<AmperModule>, k: nat)
    requires k < |ms| && UniqueNames(ms)
    ensures TypesFor(TasksOf(ms), ms[k].name) == ExpectedTypes(ms[k])
    decreases |ms|, 1
  {
    if k < |ms| - 1 {
      TasksPerEarlierModule(ms, k);
    } else {
      TasksPerLastModule(ms);
    }
  }

  /** ... for a module before the last one, whose name the last module does not share. */
  lemma {:induction false} TasksPerEarlierModule(ms: seq<AmperModule>, k: nat)
    requires k < |ms| - 1 && UniqueNames(ms)
    ensures TypesFor(TasksOf(ms), ms[k].name) == ExpectedTypes(ms[k])
    decreases |ms|, 0
  {
    var init := ms[..|ms| - 1];
    var name := ms[k].name;
    TypesForLast(ms, name);
    UniqueNamesInit(ms, k);
    TasksPerModule(init, k);
    assert TypesFor(TasksOf(ms), name) == TypesFor(TasksOf(init), name) + [];
  }

  /** ... for the last module, whose name no earlier module shares. */
  lemma TasksPerLastModule(ms: seq<AmperModule>)
    requires |ms| > 0 && UniqueNames(ms)
    ensures TypesFor(TasksOf(ms), ms[|ms| - 1].name) == ExpectedTypes(ms[|ms| - 1])
  {
    var init := ms[..|ms| - 1];
    var name := ms[|ms| - 1].name;
    TypesForLast(ms, name);
    LastNameFresh(ms, init);
    TypesNone(init, name);
    assert TypesFor(TasksOf(ms), name) == [] + ExpectedTypes(ms[|ms| - 1]);
  }

  /** A name no module carries has no entries. */
  lemma {:induction false} TypesNone(ms: seq<AmperModule>, name: string)
    requires forall k :: 0 <= k < |ms| ==> ms[k].name != name
    ensures TypesFor(TasksOf(ms), name) == []
    decreases |ms|
  {
    if |ms| > 0 {
      var init := ms[..|ms| - 1];
      TypesForLast(ms, name);
      forall k | 0 <= k < |init|
        ensures init[k].name != name
      {
        assert init[k] == ms[k];
      }
      TypesNone(init, name);
    }
  }

  /** The project of the repository's own test: `app` of type `jvm/app` gets Build,
      Run and Test, `lib` gets Build and Test. Neither gets Clean, although the test
      expects it for both. */
  lemma AppAndLibTasks()
    ensures var p := AmperProject("/test", [AmperModule("app", "/test/app", "jvm/app"), AmperModule("lib", "/test/lib", "lib")]);
      var ts := GetTasksForWorkspace(Some(p)).value.tasks;
      && TypesFor(ts, "app") == [Build, Run, Test]
      && TypesFor(ts, "lib") == [Build, Test]
      && Clean !in TypesFor(ts, "app") && Clean !in TypesFor(ts, "lib")
  {
    ExampleKinds();
    TwoModules(AmperModule("app", "/test/app", "jvm/app"), AmperModule("lib", "/test/lib", "lib"));
  }

  /** Two differently named modules each get their own entries. */
  lemma TwoModules(a: AmperModule, b: AmperModule)
    requires a.name != b.name
    ensures TypesFor(TasksOf([a, b]), a.name) == ExpectedTypes(a)
    ensures TypesFor(TasksOf([a, b]), b.name) == ExpectedTypes(b)
  {
    TasksPerModule([a, b], 0);
    TasksPerModule([a, b], 1);
  }

  /** In that project `app` counts as an application and `lib` does not. */
  lemma ExampleKinds()
    ensures ExpectedTypes(AmperModule("app", "/test/app", "jvm/app")) == [Build, Run, Test]
    ensures ExpectedTypes(AmperModule("lib", "/test/lib", "lib")) == [Build, Test]
  {
    assert OccursAt("jvm/app", "app", 4);
    assert !Contains("lib", "app") by {
      assert !OccursAt("lib", "app", 0) by {
        assert "lib"[0..3][0] == 'l';
      }
    }
  }
}
