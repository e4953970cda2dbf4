/** The task graph: `amper show tasks` prints one `task <id> -> <dep>, <dep>` line per
    task, and the service turns those lines into nodes (one per task id, in the order
    ids are first mentioned) and edges (one per listed dependency, in order). */
module TaskGraphService {
  import opened Wrappers
  import opened Text
  import opened Seqs
  import opened Process

  datatype TaskNode = TaskNode(id: string, name: string, moduleName: Option<string>)

  datatype TaskEdge = TaskEdge(from: string, to: string)

  datatype TaskGraph = TaskGraph(nodes: seq<TaskNode>, edges: seq<TaskEdge>, rootPath: string)

  // ---------------------------------------------------------------------------
  // The module part of a task id
  // ---------------------------------------------------------------------------

  /** `extractModule`: the colon-separated parts of the id without the last one,
      joined back with `:`; `"root"` when that is empty; nothing when the id has no
      colon at all. */
  function ExtractModule(taskName: string): Option<string> {
    var parts := Split(taskName, ':');
    if |parts| > 1 then
      var m := Join(parts[..|parts| - 1], ":");
      Some(if m == "" then "root" else m)
    else None
  }

  /** Reference definition: the text before the last colon. */
  function ModuleBeforeLastColon(taskName: string): Option<string> {
    match LastIndexOfChar(taskName, ':')
    case None => None
    case Some(i) => Some(if i == 0 then "root" else taskName[..i])
  }

  /** Splitting on every colon and joining all but the last part back is the same as
      cutting at the last colon. */
  lemma ExtractModuleBeforeLastColon(taskName: string)
    ensures ExtractModule(taskName) == ModuleBeforeLastColon(taskName)
  {
    var parts := Split(taskName, ':');
    var n := |parts|;
    if n > 1 {
      var init, last := parts[..n - 1], parts[n - 1];
      assert parts == init + [last];
      JoinAppend(init, [last], ":");
      var m := Join(init, ":");
      assert taskName == m + ":" + last;
      var p := |m|;
      assert taskName[p] == ':';
      assert taskName[p + 1..] == last;
      assert ':' !in last;
      LastIndexOfCharIs(taskName, ':', p);
      assert taskName[..p] == m;
    } else {
      assert taskName == parts[0];
    }
  }

  /** An id without a colon belongs to no module; one with a colon always does. */
  lemma ExtractModuleNone(taskName: string)
    ensures ExtractModule(taskName).None? <==> ':' !in taskName
  {
    ExtractModuleBeforeLastColon(taskName);
  }

  /** The module is never empty, and unless it is `"root"` the id is the module, a
      colon, and a last part without colons. */
  lemma ExtractModuleShape(taskName: string)
    requires ExtractModule(taskName).Some?
    ensures ExtractModule(taskName).value != ""
    ensures ExtractModule(taskName).value != "root" ==>
      exists last :: ':' !in last && taskName == ExtractModule(taskName).value + ":" + last
  {
    ExtractModuleBeforeLastColon(taskName);
    BeforeLastColonShape(taskName);
  }

  /** The same for the reference definition. */
  lemma BeforeLastColonShape(taskName: string)
    requires ModuleBeforeLastColon(taskName).Some?
    ensures ModuleBeforeLastColon(taskName).value != ""
    ensures ModuleBeforeLastColon(taskName).value != "root" ==>
      exists last :: ':' !in last && taskName == ModuleBeforeLastColon(taskName).value + ":" + last
  {
    var i := LastIndexOfChar(taskName, ':').value;
    if i != 0 {
      var m, last := taskName[..i], taskName[i + 1..];
      assert ModuleBeforeLastColon(taskName).value == m;
      assert m + ":" + last == taskName;
    }
  }

  /** An id in a named module. */
  lemma ExtractModuleNamed()
    ensures ExtractModule(":app:build") == Some(":app")
  {
    var t := ":app:build";
    assert t[5..] == "build";
    assert ':' !in t[5..];
    assert t[4] == ':';
    assert LastIndexOfChar(t, ':') == Some(4) by { LastIndexOfCharIs(t, ':', 4); }
    assert t[..4] == ":app";
    assert ModuleBeforeLastColon(t) == Some(":app");
    ExtractModuleBeforeLastColon(t);
  }

  /** An id in the root module. */
  lemma ExtractModuleRoot()
    ensures ExtractModule(":build") == Some("root")
  {
    var t := ":build";
    assert t[1..] == "build";
    LastIndexOfCharIs(t, ':', 0);
    ExtractModuleBeforeLastColon(t);
  }

  /** An id in no module. */
  lemma ExtractModuleUnowned()
    ensures ExtractModule("build") == None
  {
    ExtractModuleNone("build");
  }

  // ---------------------------------------------------------------------------
  // One output line
  // ---------------------------------------------------------------------------

  /** The task-id class `[^-\s]`. */
  predicate IsTaskIdChar(c: char) { !IsJsSpace(c) && c != '-' }

  /** What `^task\s+([^-\s]+)(?:\s+->\s+(.*))?$` captures: the id and, when the arrow
      part matched, the dependency text. */
  datatype TaskLine = TaskLine(task: string, deps: Option<string>)

  /** The optional ` -> deps` tail starting at `c`, as the regex tries it: the
      whitespace runs are greedy and `.*` must reach the end of the line. Gives the
      position where the dependency text starts. */
  function ArrowTail(t: string, c: nat): (r: Option<nat>)
    requires c <= |t|
    ensures r.Some? ==> c < r.value <= |t| && All(t[r.value..], NotLineTerminator)
  {
    var s1 := RunEnd(t, c, IsJsSpace);
    if s1 > c && s1 + 2 <= |t| && t[s1] == '-' && t[s1 + 1] == '>' then
      var s2 := RunEnd(t, s1 + 2, IsJsSpace);
      if s2 > s1 + 2 && All(t[s2..], NotLineTerminator) then Some(s2) else None
    else None
  }

  /** The line regex on a trimmed line. A shorter id or a shorter whitespace run
      never helps: the character after either is one the next part refuses. */
  function MatchTaskLine(t: string): (r: Option<TaskLine>)
    ensures r.Some? ==> StartsWith(t, "task") && |r.value.task| > 0 && All(r.value.task, IsTaskIdChar)
    ensures r.Some? && r.value.deps.Some? ==>
      EndsWith(t, r.value.deps.value) && All(r.value.deps.value, NotLineTerminator)
  {
    if |t| >= 4 && t[..4] == "task" then
      var e := RunEnd(t, 4, IsJsSpace);
      var c := RunEnd(t, e, IsTaskIdChar);
      if e == 4 || c == e then None
      else if c == |t| then Some(TaskLine(t[e..c], None))
      else
        match ArrowTail(t, c)
        case Some(s2) => Some(TaskLine(t[e..c], Some(t[s2..])))
        case None => None
    else None
  }

  /** The line the matcher reads an id and dependency text from. */
  function TaskLineText(task: string, deps: Option<string>): string {
    "task " + task + (match deps case None => "" case Some(d) => " -> " + d)
  }

  /** Matching inverts rendering, for every id the class admits and every dependency
      text without line terminators that does not start with whitespace. */
  lemma MatchTaskLineText(task: string, deps: Option<string>)
    requires |task| > 0 && All(task, IsTaskIdChar)
    requires deps.Some? ==> All(deps.value, NotLineTerminator)
    requires deps.Some? && |deps.value| > 0 ==> !IsJsSpace(deps.value[0])
    ensures MatchTaskLine(TaskLineText(task, deps)) == Some(TaskLine(task, deps))
  {
    var t := TaskLineText(task, deps);
    assert t[..4] == "task";
    assert t[4] == ' ' && t[5] == task[0];
    RunEndIs(t, 4, 5, IsJsSpace);
    assert t[5..5 + |task|] == task;
    if deps.Some? {
      MatchArrowTail(task, deps.value);
    } else {
      RunEndIs(t, 5, |t|, IsTaskIdChar);
    }
  }

  /** The arrow part of a rendered line: the id stops at the space before the arrow,
      and the dependency text starts right after the space that follows it. */
  lemma MatchArrowTail(task: string, d: string)
    requires |task| > 0 && All(task, IsTaskIdChar)
    requires All(d, NotLineTerminator)
    requires |d| > 0 ==> !IsJsSpace(d[0])
    ensures var t := TaskLineText(task, Some(d));
      && RunEnd(t, 5, IsTaskIdChar) == 5 + |task|
      && ArrowTail(t, 5 + |task|) == Some(9 + |task|)
      && t[9 + |task|..] == d
  {
    var t := TaskLineText(task, Some(d));
    var c := 5 + |task|;
    assert t[5..c] == task;
    assert t[c] == ' ' && t[c + 1] == '-';
    RunEndIs(t, 5, c, IsTaskIdChar);
    RunEndIs(t, c, c + 1, IsJsSpace);
    assert t[c + 1] == '-' && t[c + 2] == '>' && t[c + 3] == ' ';
    assert t[c + 4..] == d;
    RunEndIs(t, c + 3, c + 4, IsJsSpace);
  }

  /** A task id holding `-` is never read from a line: the id class refuses it, and
      the character where the id stops can start neither the arrow part nor the end. */
  lemma DashedIdIgnored(task: string, deps: Option<string>, k: nat)
    requires k < |task| && task[k] == '-' && All(task[..k], IsTaskIdChar)
    ensures MatchTaskLine(TaskLineText(task, deps)).None?
  {
    var t := TaskLineText(task, deps);
    assert t[..4] == "task";
    assert t[4] == ' ' && t[5] == task[0];
    RunEndIs(t, 4, 5, IsJsSpace);
    assert t[5 + k] == '-';
    forall i | 5 <= i < 5 + k
      ensures IsTaskIdChar(t[i])
    {
      assert t[i] == task[..k][i - 5];
    }
    RunEndIs(t, 5, 5 + k, IsTaskIdChar);
  }

  /** The dependency list: the captured text split on `,`, every part trimmed.
      Empty text (what `(.*)` captures after a bare arrow) lists nothing. */
  function DepsOf(m: TaskLine): (r: seq<string>)
    ensures m.deps.Some? && m.deps.value != "" ==> |r| == |Split(m.deps.value, ',')|
    ensures m.deps.Some? && m.deps.value != "" ==>
      forall i :: 0 <= i < |r| ==> IsTrimOf(Split(m.deps.value, ',')[i], r[i], IsJsSpace)
    ensures m.deps.None? || m.deps.value == "" ==> r == []
    ensures forall i :: 0 <= i < |r| ==> ',' !in r[i]
  {
    match m.deps
    case Some(d) =>
      if d == "" then []
      else
        var parts := Split(d, ',');
        seq(|parts|, i requires 0 <= i < |parts| => TrimPart(parts[i]))
    case None => []
  }

  /** A part with its JavaScript whitespace trimmed from both ends; trimming
      keeps a character out if it was out of the untrimmed text. */
  function TrimPart(part: string): (r: string)
    ensures IsTrimOf(part, r, IsJsSpace)
    ensures forall c :: c !in part ==> c !in r
    ensures All(part, NotLineTerminator) ==> All(r, NotLineTerminator)
  {
    var r := JsTrim(part);
    var i, j :| 0 <= i <= j <= |part| && r == part[i..j];
    SliceKeepsAll(part, i, j);
    r
  }

  /** Each line is trimmed and the empty ones skipped before the regex is tried. */
  function LineTask(line: string): Option<TaskLine> {
    var t := JsTrim(line);
    if t == "" then None else MatchTaskLine(t)
  }

  /** What the regex lets through: an id of the class, and dependency text that
      stays on one line. */
  predicate Readable(m: TaskLine) {
    && |m.task| > 0
    && All(m.task, IsTaskIdChar)
    && (m.deps.Some? ==> All(m.deps.value, NotLineTerminator))
  }

  lemma LineTaskReadable(line: string)
    requires LineTask(line).Some?
    ensures Readable(LineTask(line).value)
  {
  }

  /** Each listed dependency stays on one line. */
  lemma DepsSingleLine(m: TaskLine)
    requires Readable(m)
    ensures forall i :: 0 <= i < |DepsOf(m)| ==> All(DepsOf(m)[i], NotLineTerminator)
  {
    if m.deps.Some? && m.deps.value != "" {
      var parts := Split(m.deps.value, ',');
      forall i | 0 <= i < |parts|
        ensures All(DepsOf(m)[i], NotLineTerminator)
      {
        AllOfJoinedPart(parts, ",", NotLineTerminator, i);
      }
    }
  }

  // ---------------------------------------------------------------------------
  // Building the graph
  // ---------------------------------------------------------------------------

  /** The node a mentioned id creates. */
  function NodeOf(id: string): TaskNode {
    TaskNode(id, id, ExtractModule(id))
  }

  function Ids(nodes: seq<TaskNode>): (r: seq<string>)
    ensures |r| == |nodes|
    ensures forall i :: 0 <= i < |nodes| ==> r[i] == nodes[i].id
  {
    seq(|nodes|, i requires 0 <= i < |nodes| => nodes[i].id)
  }

  /** Every node is the one its id creates. */
  predicate NodesWellFormed(nodes: seq<TaskNode>) {
    forall i :: 0 <= i < |nodes| ==> nodes[i] == NodeOf(nodes[i].id)
  }

  /** The `nodes.has(id)` guard: an id already present adds nothing, a new one is
      appended (a `Map` iterates in insertion order). */
  function AddNode(nodes: seq<TaskNode>, id: string): (r: seq<TaskNode>)
    ensures NodesWellFormed(nodes) ==> NodesWellFormed(r)
    ensures id in Ids(r)
  {
    if id in Ids(nodes) then nodes
    else
      var r := nodes + [NodeOf(id)];
      assert Ids(r)[|nodes|] == id;
      r
  }

  /** Adds ids left to right. */
  function AddNodes(nodes: seq<TaskNode>, ids: seq<string>): (r: seq<TaskNode>)
    ensures NodesWellFormed(nodes) ==> NodesWellFormed(r)
    decreases |ids|
  {
    if |ids| == 0 then nodes
    else AddNode(AddNodes(nodes, ids[..|ids| - 1]), ids[|ids| - 1])
  }

  /** The ids a line mentions, in the order the service adds their nodes. */
  function Mentioned(m: TaskLine): seq<string> {
    [m.task] + DepsOf(m)
  }

  /** The edges a line contributes: task to each dependency, in list order. */
  function EdgesOf(m: TaskLine): (r: seq<TaskEdge>)
    ensures |r| == |DepsOf(m)|
    ensures forall i :: 0 <= i < |r| ==> r[i].from == m.task && r[i].to == DepsOf(m)[i]
  {
    var ds := DepsOf(m);
    seq(|ds|, i requires 0 <= i < |ds| => TaskEdge(m.task, ds[i]))
  }

  /** Nodes and edges after the matched lines `ms`, processed in order. */
  function Build(ms: seq<TaskLine>): (r: (seq<TaskNode>, seq<TaskEdge>))
    ensures NodesWellFormed(r.0)
    decreases |ms|
  {
    if |ms| == 0 then ([], [])
    else
      var prev := Build(ms[..|ms| - 1]);
      var m := ms[|ms| - 1];
      (AddNodes(prev.0, Mentioned(m)), prev.1 + EdgesOf(m))
  }

  /** Every id the matched lines mention, in order, repeats included. */
  function Mentions(ms: seq<TaskLine>): seq<string>
    decreases |ms|
  {
    if |ms| == 0 then [] else Mentions(ms[..|ms| - 1]) + Mentioned(ms[|ms| - 1])
  }

  /** Every dependency edge of the matched lines, in order. */
  function AllEdges(ms: seq<TaskLine>): seq<TaskEdge>
    decreases |ms|
  {
    if |ms| == 0 then [] else AllEdges(ms[..|ms| - 1]) + EdgesOf(ms[|ms| - 1])
  }

  /** Number of dependencies the matched lines list. */
  function DepCount(ms: seq<TaskLine>): nat
    decreases |ms|
  {
    if |ms| == 0 then 0 else DepCount(ms[..|ms| - 1]) + |DepsOf(ms[|ms| - 1])|
  }

  /** `parseTaskOutput`. */
  function ParseTaskOutput(output: string, rootPath: string): TaskGraph {
    var ms := FilterMap(LineTask, Split(output, '\n'));
    var b := Build(ms);
    TaskGraph(b.0, b.1, rootPath)
  }

  // ---------------------------------------------------------------------------
  // Properties of the graph
  // ---------------------------------------------------------------------------

  /** Adding one id keeps the nodes at the first occurrences of the ids seen. */
  lemma AddNodeFirstOccurrence(nodes: seq<TaskNode>, seen: seq<string>, id: string)
    requires Ids(nodes) == FirstOccurrences(seen)
    ensures Ids(AddNode(nodes, id)) == FirstOccurrences(seen + [id])
  {
    var s := seen + [id];
    assert s[..|s| - 1] == seen;
    var prev := FirstOccurrences(seen);
    if id in prev {
      assert id in Ids(nodes);
    } else {
      assert id !in Ids(nodes);
      assert Ids(nodes + [NodeOf(id)]) == Ids(nodes) + [id];
    }
  }

  lemma {:induction false} AddNodesFirstOccurrences(nodes: seq<TaskNode>, seen: seq<string>, ids: seq<string>)
    requires Ids(nodes) == FirstOccurrences(seen)
    ensures Ids(AddNodes(nodes, ids)) == FirstOccurrences(seen + ids)
    decreases |ids|
  {
    if |ids| == 0 {
      assert seen + ids == seen;
    } else {
      var init, last := ids[..|ids| - 1], ids[|ids| - 1];
      var all := seen + ids;
      assert all == (seen + init) + [last];
      AddNodesFirstOccurrences(nodes, seen, init);
      var before := AddNodes(nodes, init);
      assert AddNodes(nodes, ids) == AddNode(before, last);
      AddNodeFirstOccurrence(before, seen + init, last);
      assert Ids(AddNode(before, last)) == FirstOccurrences((seen + init) + [last]);
    }
  }

  /** The nodes are the mentioned ids at their first mention: unique, in order, and
      none missing or invented. */
  lemma {:induction false} BuildNodes(ms: seq<TaskLine>)
    ensures Ids(Build(ms).0) == FirstOccurrences(Mentions(ms))
    decreases |ms|
  {
    if |ms| > 0 {
      var init := ms[..|ms| - 1];
      BuildNodes(init);
      AddNodesFirstOccurrences(Build(init).0, Mentions(init), Mentioned(ms[|ms| - 1]));
    }
  }

  /** The edges are each line's dependencies, one edge each, duplicates kept. */
  lemma {:induction false} BuildEdges(ms: seq<TaskLine>)
    ensures Build(ms).1 == AllEdges(ms)
    ensures |Build(ms).1| == DepCount(ms)
    decreases |ms|
  {
    if |ms| > 0 {
      BuildEdges(ms[..|ms| - 1]);
    }
  }

  /** Every edge of `es` joins two ids of `xs`. */
  predicate EdgesWithin(es: seq<TaskEdge>, xs: seq<string>) {
    forall e :: e in es ==> e.from in xs && e.to in xs
  }

  /** Edges within two id lists stay within their concatenation. */
  lemma EdgesWithinConcat(es1: seq<TaskEdge>, xs1: seq<string>, es2: seq<TaskEdge>, xs2: seq<string>)
    requires EdgesWithin(es1, xs1) && EdgesWithin(es2, xs2)
    ensures EdgesWithin(es1 + es2, xs1 + xs2)
  {
  }

  /** Every edge joins two mentioned ids. */
  lemma {:induction false} EdgesMentioned(ms: seq<TaskLine>)
    ensures EdgesWithin(AllEdges(ms), Mentions(ms))
    decreases |ms|
  {
    if |ms| > 0 {
      var init, m := ms[..|ms| - 1], ms[|ms| - 1];
      EdgesMentioned(init);
      OwnEdgesMentioned(m);
      EdgesWithinConcat(AllEdges(init), Mentions(init), EdgesOf(m), Mentioned(m));
    }
  }

  /** A line's own edges join ids the line mentions. */
  lemma OwnEdgesMentioned(m: TaskLine)
    ensures EdgesWithin(EdgesOf(m), Mentioned(m))
  {
    var own, ds := EdgesOf(m), DepsOf(m);
    assert Mentioned(m) == [m.task] + ds;
    forall e | e in own
      ensures e.from == m.task && e.to in ds
    {
      var j :| 0 <= j < |own| && own[j] == e;
      assert e.to == ds[j];
    }
  }

  /** The parsed graph: node ids are unique, follow the order of first mention, and
      every node's name is its id and its module is what `extractModule` gives. */
  lemma ParsedNodes(output: string, rootPath: string)
    ensures var g := ParseTaskOutput(output, rootPath);
      && Ids(g.nodes) == FirstOccurrences(Mentions(FilterMap(LineTask, Split(output, '\n'))))
      && Distinct(Ids(g.nodes))
      && NodesWellFormed(g.nodes)
      && g.rootPath == rootPath
  {
    BuildNodes(FilterMap(LineTask, Split(output, '\n')));
  }

  /** The parsed graph is closed: every edge starts and ends at a node. */
  lemma ParsedEdgesClosed(output: string, rootPath: string)
    ensures var g := ParseTaskOutput(output, rootPath);
      forall i :: 0 <= i < |g.edges| ==> g.edges[i].from in Ids(g.nodes) && g.edges[i].to in Ids(g.nodes)
  {
    var ms := FilterMap(LineTask, Split(output, '\n'));
    BuildNodes(ms);
    BuildEdges(ms);
    EdgesMentioned(ms);
  }

  /** Every id the matched lines mention stays on one line: an id holds no
      whitespace, and the dependency text no line terminator. */
  lemma {:induction false} MentionsSingleLine(ms: seq<TaskLine>)
    requires forall j :: 0 <= j < |ms| ==> Readable(ms[j])
    ensures forall i :: 0 <= i < |Mentions(ms)| ==> All(Mentions(ms)[i], NotLineTerminator)
    decreases |ms|
  {
    if |ms| > 0 {
      var init, m := ms[..|ms| - 1], ms[|ms| - 1];
      MentionsSingleLine(init);
      DepsSingleLine(m);
      var xs := Mentions(ms);
      assert xs == Mentions(init) + ([m.task] + DepsOf(m));
      forall i | 0 <= i < |xs|
        ensures All(xs[i], NotLineTerminator)
      {
        if i < |Mentions(init)| {
          assert xs[i] == Mentions(init)[i];
        } else if i == |Mentions(init)| {
          assert xs[i] == m.task;
        } else {
          assert xs[i] == DepsOf(m)[i - |Mentions(init)| - 1];
        }
      }
    }
  }

  /** Every node id of a parsed graph stays on one line. */
  lemma ParsedIdsSingleLine(output: string, rootPath: string)
    ensures var g := ParseTaskOutput(output, rootPath);
      forall i :: 0 <= i < |g.nodes| ==> All(g.nodes[i].id, NotLineTerminator)
  {
    var ms := FilterMap(LineTask, Split(output, '\n'));
    forall j | 0 <= j < |ms|
      ensures Readable(ms[j])
    {
      var i :| 0 <= i < |Split(output, '\n')| && LineTask(Split(output, '\n')[i]) == Some(ms[j]);
      LineTaskReadable(Split(output, '\n')[i]);
    }
    MentionsSingleLine(ms);
    BuildNodes(ms);
    var g := ParseTaskOutput(output, rootPath);
    forall i | 0 <= i < |g.nodes|
      ensures All(g.nodes[i].id, NotLineTerminator)
    {
      assert Ids(g.nodes)[i] in Mentions(ms);
    }
  }

  /** Lines that are not task lines contribute nothing: the graph of an output is
      the graph of the concatenated outputs of its parts, in order. */
  lemma ParseAppendLines(lines: seq<string>, more: seq<string>)
    ensures FilterMap(LineTask, lines + more) == FilterMap(LineTask, lines) + FilterMap(LineTask, more)
  {
    FilterMapAppend(LineTask, lines, more);
  }

  // ---------------------------------------------------------------------------
  // Running the command
  // ---------------------------------------------------------------------------

  const ShowTasksArgs: seq<string> := ["show", "tasks"]

  /** `getTaskGraph`: a failing command's error is passed on unchanged; otherwise
      its output is parsed, with the workspace path as root. */
  function GetTaskGraph(exec: Executor, workspacePath: string): (r: Result<TaskGraph, string>)
    ensures exec("amper", ShowTasksArgs, Some(workspacePath)).Failure? <==> r.Failure?
    ensures r.Failure? ==> r.error == exec("amper", ShowTasksArgs, Some(workspacePath)).error
    ensures r.Success? ==>
      && r.value.rootPath == workspacePath
      && Ids(r.value.nodes) == FirstOccurrences(Mentions(FilterMap(LineTask,
           Split(exec("amper", ShowTasksArgs, Some(workspacePath)).value, '\n'))))
  {
    match exec("amper", ShowTasksArgs, Some(workspacePath))
    case Failure(e) => Failure(e)
    case Success(output) =>
      ParsedNodes(output, workspacePath);
      Success(ParseTaskOutput(output, workspacePath))
  }
}
