# Amper for VS Code: the parsers and decision procedures, in Dafny

This project models the logic of the Amper VS Code extension that turns the output of the `amper` build tool into typed records, and the post-processing steps of its schema extractor, a Rust tool that reads Amper's Kotlin schema classes and emits a JSON Schema (draft 2020-12) for `module.yaml`.

Modelled components, one Dafny module each:

- `Diagnostics` (diagnostics.dfy): the build-output parser. It turns `[e|w: ]file:line:col: msg` lines into diagnostics, adds a diagnostic for each `FAILURE:` or `BUILD FAILED` line, and applies the enhancement rules.
- `Dependencies` (dependencies.dfy): the dependency-tree parser. It handles scope headers, the depth stack, `->` overrides and the `FAILED`, `(c)` and `(*)` suffixes. It also covers the command arguments, the error-to-empty rule and the bounded retry of the loader.
- `TaskGraphService` (taskgraphservice.dfy): the task-graph parser and module inference.
- `TaskGraphPanel` (taskgraphpanel.dfy): `safeId` and the Mermaid node, edge and click lines.
- `AmperProgressParser` (progress.dfy): the `Task :id` and `[n/m]` extractors.
- `AdbDeviceService` (devices.dfy): the `adb devices -l` table parser, and the poller's refresh and selection as state transitions.
- `TemplateRepository` (templates.dfy): template discovery from a properties bundle, the sort by label, the default list and the cache.
- `TaskService` (tasks.dfy): the per-module task list.
- `JdkRepository` (jdks.dfy): the cache path per platform, the JDK directory filter and classification, and version extraction.
- The schema extractor:
  - `SchemaTypes` (schematypes.dfy): the records and the annotation lookups.
  - `SchemaParser` (schemaparser.dfy): type strings, `@SchemaDoc` texts, annotations, class and property records, and sealed hierarchies.
  - `JsonSchema` (jsonschema.dfy): JSON values, `short_doc`, enum, primitive and property schemas, the property merge, and class definitions.
  - `SchemaBuilder` (schemabuilder.dfy): the recursive building of `$defs` and the root schema.
- Shared modules:
  - `Wrappers`: Option and Result.
  - `Process`: the executor as a function value.
  - `Text`: character classes, trimming, splitting and searching.
  - `Seqs`: filter-map, deduplication and searches.
  - `IndexMaps`: insertion-ordered maps, for `IndexMap`, JavaScript `Map` and JSON objects.

Regular expressions are written out as explicit matchers. Each greedy or lazy choice is argued where it is defined. The process executor is a function parameter that returns a `Result`. The file system reaches the model only as values: the text of a file, or a directory listing.

Three behaviours of the code are worth knowing before reading the model:

- Depth is the length of the tree prefix divided by five, rounded down. A child indented by four characters therefore has depth 0 and becomes a second root (`Dependencies.EntryDepth`).
- The task service lists only Build, Run and Test for each module. No Clean task is produced, although the extension's own task-service test expects one (`TaskService.AppAndLibTasks`).
- The schema builder overflows its stack on a class that refers back to itself before its definition is stored. The model makes that case explicit: such a build yields `None` (`SchemaBuilder.Build`).

## Model

| member | source | states |
|---|---|---|
| Diagnostics.TailAtShape | src/application/services/DiagnosticService.ts:15 | the tail `:(\d+):(\d+):\s+(.*)$` at a position: a `:`, a non-empty digit run for the line, a non-empty digit run for the column, and a message that runs to the end of the line without a line terminator |
| Diagnostics.FileStart | src/application/services/DiagnosticService.ts:15 | the file group starts after the optional `[ew]:\s+` prefix, never past the end of the line |
| Diagnostics.ScanFile | src/application/services/DiagnosticService.ts:15 | the lazy `(.*?)`: the first position from the start where a tail matches, with no tail at any earlier position, and no match at all when no reachable position has one |
| Diagnostics.MatchFrom | src/application/services/DiagnosticService.ts:15 | the captured file is the text between the file start and the shortest position where a tail matches, and the line and column captures are digit runs |
| Diagnostics.MatchLine | src/application/services/DiagnosticService.ts:15-22 | the prefix group captures `e` or `w` exactly when the line starts with the severity prefix |
| Diagnostics.PrefixBacktrackingFails | src/application/services/DiagnosticService.ts:15 | when the prefix group matches but no file follows it, skipping the prefix cannot make the pattern match either |
| Diagnostics.DetermineSource | src/application/services/DiagnosticService.ts:59-63 | `Kotlin` exactly for `.kt`/`.kts` paths, `Amper` exactly for other paths ending `module.yaml`, otherwise `Build` |
| Diagnostics.Enhance | src/application/services/DiagnosticService.ts:65-80 | enhancement changes only the message and the link, and the message either stays or gains the license hint |
| Diagnostics.KelvinLicenseHint | src/application/services/DiagnosticService.ts:66-71 | `toLowerCase` turns U+212A KELVIN SIGN into `k`, so a message starting `JD\U{212A}` that mentions `license` gets the license hint and link |
| Text.JsToLowerCaseAscii | src/application/services/DiagnosticService.ts:66 | on text without U+212A and U+0130, `toLowerCase` (which also maps those two to `k` and to `i` plus U+0307) is the ASCII lower-casing |
| Diagnostics.MinSdkRuleIsDead | src/application/services/DiagnosticService.ts:66-73 | a lower-cased message never contains `minSdk`, so the Android rule never fires |
| Diagnostics.EnhanceRules | src/application/services/DiagnosticService.ts:65-80 | at most one rule fires on the `toLowerCase` form of the message: license and jdk append the hint and set the license link; otherwise an unresolved reference sets only its link; otherwise nothing changes |
| Diagnostics.LineDiagnostic | src/application/services/DiagnosticService.ts:18-45 | blank lines and tree-connector lines yield nothing; Info is never produced; file, line and column are present together; an unlocated diagnostic is the synthetic failure one |
| Diagnostics.MatchedLine | src/application/services/DiagnosticService.ts:24-37 | a matched line gives Warning exactly for prefix `w`, file = trimmed capture, line and column = the decimal values, source from the untrimmed capture, message = the trimmed captured message, with at most the license hint appended |
| Diagnostics.FailureLine | src/application/services/DiagnosticService.ts:39-45 | an unmatched `FAILURE:` or `BUILD FAILED` line gives exactly one unlocated Error with the trimmed line as message, source `Build` and no link |
| Diagnostics.FormattedLineParses | src/application/services/DiagnosticService.ts:15-37 | a line printed as `<e or w>: <file>:<line>:<column>: <message>`, whose path has no `:` before a digit and whose path and message have no surrounding whitespace, reads back as exactly those parts (severity, file, decimal line and column, message, source), enhanced |
| Diagnostics.WindowsPathLine | src/application/services/DiagnosticService.ts:9-37 | `e: C:\p\a.kt:10:5: msg` is an Error in file `C:\p\a.kt` at line 10, column 5, message `msg`, source `Kotlin`, no link: the drive colon stays in the path |
| Diagnostics.WarningsAreLocated | src/application/services/DiagnosticService.ts:26-45 | every warning comes from the pattern with prefix `w` and carries a file |
| Diagnostics.ParseBuildOutput | src/application/services/DiagnosticService.ts:4-57 | success, duration, module and task pass through; the raw output is the input; at most one diagnostic per line; no Info; empty input gives none |
| Diagnostics.ParseConcatenation | src/application/services/DiagnosticService.ts:6-46 | lines are handled independently and in order: the diagnostics of `a + "\n" + b` are those of `a` followed by those of `b` |
| Diagnostics.SingleLineOutput | src/application/services/DiagnosticService.ts:6-46 | a one-line output yields exactly that line's diagnostic, if any |
| Dependencies.ScopeWordAt | src/presentation/providers/AmperDependencyProvider.ts:119 | `scope\s*=\s*(\w+)` at a position, case-insensitively: the captured word is a non-empty run of word characters |
| Dependencies.ScopeHeader | src/presentation/providers/AmperDependencyProvider.ts:119-129 | a header starts with `module` (any case) and a whitespace, and captures a non-empty word |
| Dependencies.ScopeHeaderRightmost | src/presentation/providers/AmperDependencyProvider.ts:119 | a header is found exactly when some position the greedy `.*` can reach holds a scope word, and the word captured is the one at the rightmost such position |
| Dependencies.PrefixLength | src/presentation/providers/AmperDependencyProvider.ts:120-141 | the tree prefix is the longest leading run of `\|`, whitespace, `+`, `\`, `─`, `├`, `╰` |
| Dependencies.FillerCheckIsDead | src/presentation/providers/AmperDependencyProvider.ts:120-142 | the prefix never trims to `│`, which is outside the prefix class, so the filler check never skips a line |
| Dependencies.OverrideAt | src/presentation/providers/AmperDependencyProvider.ts:121 | the optional `\s+->\s+([^\s]+)` captures a non-empty run without whitespace |
| Dependencies.CoordinateAt | src/presentation/providers/AmperDependencyProvider.ts:121 | the coordinate at a position is three maximal non-empty runs without whitespace or `:` (no `(` in the version), joined by `:` |
| Dependencies.CoordinateAtText | src/presentation/providers/AmperDependencyProvider.ts:121 | the coordinate text occurs verbatim at the match position |
| Dependencies.FindCoordinate | src/presentation/providers/AmperDependencyProvider.ts:121-148 | the unanchored search returns the leftmost position where the coordinate matches, and none when no position does |
| Dependencies.MatchCoordinate | src/presentation/providers/AmperDependencyProvider.ts:148-150 | a coordinate is found exactly when one matches somewhere in the content, and it is the one at some matching position |
| Dependencies.CoordinateSplits | src/presentation/providers/AmperDependencyProvider.ts:155-160 | splitting the matched coordinate on `:` gives exactly group, artifact and version, so the `parts.length < 3` check never fires |
| Dependencies.MarkerOf | src/presentation/providers/AmperDependencyProvider.ts:170-177 | suffix precedence: FAILED if the content contains `FAILED`, else constraint if `(c)`, else omitted if `(*)`, else none |
| Dependencies.VersionInfoRoundTrip | src/presentation/providers/AmperDependencyProvider.ts:163-177 | the shown version decodes back to the version, the override and the marker |
| Dependencies.MarkedOverrideText | src/presentation/providers/AmperDependencyProvider.ts:163-177 | an override with a marker is shown as four space-separated pieces: version, arrow, override, marker |
| Dependencies.DecodeMarked | src/presentation/providers/AmperDependencyProvider.ts:163-177 | without an override the shown version decodes to the version and marker |
| Dependencies.DecodeOverride | src/presentation/providers/AmperDependencyProvider.ts:165-168 | `v1 -> v2` decodes to the version and its override |
| Dependencies.DecodeOverrideMarked | src/presentation/providers/AmperDependencyProvider.ts:165-177 | an override followed by a marker decodes to all three |
| Dependencies.ClassifyLine | src/presentation/providers/AmperDependencyProvider.ts:123-185 | one line in the order of the checks: blank lines are skipped; scope headers (found on non-blank lines) set the lower-cased scope; an entry needs a `:`, no `Module `/`Dependencies of module` start and a coordinate match, and is built from that match |
| Dependencies.EntryName | src/presentation/providers/AmperDependencyProvider.ts:180 | the node name is `group:artifact` and splits back into those two |
| Dependencies.EntryVersion | src/presentation/providers/AmperDependencyProvider.ts:162-185 | the shown version decodes to the matched version, override and marker, and isConflict holds exactly when the content contains `FAILED` |
| Dependencies.EntryDepth | src/presentation/providers/AmperDependencyProvider.ts:145 | depth is the tree-prefix length divided by five, rounded down |
| Dependencies.AppendAtSpine | src/presentation/providers/AmperDependencyProvider.ts:195-197 | attaching a child below the last-child path keeps the node's own label |
| Dependencies.AppendAtSpineParents | src/presentation/providers/AmperDependencyProvider.ts:195-197 | in pre-order numbering, the new child is numbered after every existing node and its parent is the node at `level` on the last-child path; no other node's parent changes |
| Dependencies.AppendAtSpineNodes | src/presentation/providers/AmperDependencyProvider.ts:195-197 | the last-child path down to `level` passes the same nodes, each grown by the one new node, and the next node on it is the new child |
| Dependencies.AppendAtSpineLength | src/presentation/providers/AmperDependencyProvider.ts:196-197 | the new child ends the last-child path, where the stack's new top is |
| Dependencies.AppendAtSpineFlatten | src/presentation/providers/AmperDependencyProvider.ts:196 | the new child comes last in pre-order |
| Dependencies.Closed | src/presentation/providers/AmperDependencyProvider.ts:187-202 | the number of roots no later line can change: all of them once the stack is empty |
| Dependencies.Unwind | src/presentation/providers/AmperDependencyProvider.ts:191-193 | popping leaves a prefix of the stack whose depths are all below the new depth, and removes only entries at least as deep |
| Dependencies.Insert | src/presentation/providers/AmperDependencyProvider.ts:187-202 | depth 0 starts a root and resets the stack to `[0]`; a deeper node with nothing shallower on the stack starts a root with the stack `[depth]`; otherwise only the last root changes and the stack becomes the kept entries followed by the new depth |
| Dependencies.InsertParents | src/presentation/providers/AmperDependencyProvider.ts:187-202 | the inserted node's parent is the node of the deepest stack entry shallower than it, or none at depth 0 or when no such entry is left; no other node's parent changes |
| Dependencies.AttachIsRef | src/presentation/providers/AmperDependencyProvider.ts:187-197 | in a state that tracks the entries so far, the stack entry a node attaches to is the last earlier entry of the same section that is less deep |
| Dependencies.InsertTracks | src/presentation/providers/AmperDependencyProvider.ts:187-202 | inserting an entry keeps the forest realising the reference parents, with one node per entry, and keeps the stack pointing at the open entries of the section |
| Dependencies.SiblingExample | src/presentation/providers/AmperDependencyProvider.ts:191-197 | a depth-1 node inserted into `A→[B, C]` with stack depths `[0, 1]` pops `C`'s entry and becomes `A`'s third child, not a child of `C` |
| Dependencies.InsertValid | src/presentation/providers/AmperDependencyProvider.ts:187-202 | the stack's depths stay strictly increasing and matched to the last root's path, and final roots stay untouched |
| Dependencies.InsertFlatten | src/presentation/providers/AmperDependencyProvider.ts:187-202 | the inserted node comes last in the forest's pre-order |
| Dependencies.Step | src/presentation/providers/AmperDependencyProvider.ts:127-202 | the parser state stays valid; a scope header empties the stack and adds no root |
| Dependencies.StepClosed | src/presentation/providers/AmperDependencyProvider.ts:123-203 | a line never changes a final root |
| Dependencies.StepTracks | src/presentation/providers/AmperDependencyProvider.ts:123-203 | one line keeps the state tracking the entries; a scope header starts a new section, so no later entry attaches to an earlier one |
| Dependencies.StepFlatten | src/presentation/providers/AmperDependencyProvider.ts:123-203 | one line appends exactly its node, if any, to the pre-order, and sets the scope as a header says |
| Dependencies.ParseKinds | src/presentation/providers/AmperDependencyProvider.ts:123-203 | the forest's pre-order is the nodes of the accepted lines, in line order, each with the scope in effect |
| Dependencies.ParseKindsParents | src/presentation/providers/AmperDependencyProvider.ts:123-203 | from a state that tracks the entries so far, the final forest realises the reference parents of all entries |
| Dependencies.LastShallower | src/presentation/providers/AmperDependencyProvider.ts:187-197 | the reference parent: the last position before `j` whose entry is in the same section and less deep, and none when no position is |
| Dependencies.Classify | src/presentation/providers/AmperDependencyProvider.ts:114-123 | every line is classified, in order |
| Dependencies.ParseDependencyOutput | src/presentation/providers/AmperDependencyProvider.ts:113-206 | each accepted line contributes exactly one node, in line order, and nothing else does; each node's parent is the last earlier entry of its section that is less deep, and a node with none is a root |
| Dependencies.ChildExample | src/presentation/providers/AmperDependencyProvider.ts:187-202 | `a:b:1.0` followed by a depth-1 entry `c:d:2.0` gives one root with one child |
| Dependencies.ClosedRootsFinal | src/presentation/providers/AmperDependencyProvider.ts:187-202 | later lines never change a final root |
| Dependencies.ScopeHeaderClosesRoots | src/presentation/providers/AmperDependencyProvider.ts:127-132 | after a scope header every earlier root is final: no later node joins an earlier tree |
| Dependencies.DependencyArgs | src/presentation/providers/AmperDependencyProvider.ts:101-104 | `show dependencies`, followed by `-m <module>` exactly when a non-empty module is given |
| Dependencies.GetDependencies | src/presentation/providers/AmperDependencyProvider.ts:99-111 | any executor failure gives the empty list; otherwise the parsed output |
| Dependencies.LoadDependencies | src/presentation/providers/AmperDependencyProvider.ts:264-289 | a retry follows only an empty fetch with fewer than two retries made; the k-th delay is 3000·(retry+1) ms; the list kept is the last fetch |
| Dependencies.Load | src/presentation/providers/AmperDependencyProvider.ts:264-289 | a load request made while the loading flag is set, or without a workspace, changes nothing; otherwise the whole retry chain runs as one step, and loading ends with an empty list exactly when all three fetches came back empty. The early clearing of the flag during a retry is not modelled (see "## Left out") |
| Dependencies.LoadFromStart | src/presentation/providers/AmperDependencyProvider.ts:275-277 | at most three fetches, waiting 3000 ms and then 6000 ms |
| TaskGraphService.ExtractModuleBeforeLastColon | src/application/services/TaskGraphService.ts:83-92 | splitting on every `:` and joining all parts but the last is the text before the last colon, with an empty result read as `root` |
| TaskGraphService.ExtractModuleNone | src/application/services/TaskGraphService.ts:85-91 | no module exactly when the id has no colon |
| TaskGraphService.ExtractModuleShape | src/application/services/TaskGraphService.ts:86-89 | the module is never empty, and unless it is `root` the id is the module, a colon and a colon-free last part |
| TaskGraphService.ExtractModuleNamed | src/application/services/TaskGraphService.ts:87-89 | `:app:build` belongs to `:app` |
| TaskGraphService.ExtractModuleRoot | src/application/services/TaskGraphService.ts:89 | `:build` belongs to `root` |
| TaskGraphService.ExtractModuleUnowned | src/application/services/TaskGraphService.ts:91 | `build` belongs to no module |
| TaskGraphService.ExtractModule | src/application/services/TaskGraphService.ts:83-92 | computes the owning module of a task id; its contract is stated by `ExtractModuleBeforeLastColon`, `ExtractModuleNone`, `ExtractModuleShape` and the three example lemmas above |
| TaskGraphService.ArrowTail | src/application/services/TaskGraphService.ts:31 | the optional `\s+->\s+(.*)` tail: the captured text runs to the end of the line without a line terminator |
| TaskGraphService.MatchTaskLine | src/application/services/TaskGraphService.ts:31-39 | a matched line starts with `task`, its id is a non-empty run without `-` or whitespace, and the dependency text ends the line |
| TaskGraphService.MatchTaskLineText | src/application/services/TaskGraphService.ts:31 | matching inverts rendering: `task <id>` or `task <id> -> <deps>` reads back as that id and dependency text |
| TaskGraphService.MatchArrowTail | src/application/services/TaskGraphService.ts:31 | on a rendered line the id stops at the space before the arrow and the tail captures the dependency text |
| TaskGraphService.DashedIdIgnored | src/application/services/TaskGraphService.ts:31-40 | a line whose task id contains `-` is ignored entirely |
| TaskGraphService.DepsOf | src/application/services/TaskGraphService.ts:53-54 | non-empty dependency text gives one entry per comma-separated part, entry i being part i with its whitespace trimmed from both ends; absent or empty text gives none; no entry contains a comma |
| TaskGraphService.TrimPart | src/application/services/TaskGraphService.ts:54 | the result is the part with JavaScript whitespace removed from both ends (a slice of it, starting and ending with non-whitespace, with only whitespace cut off); it adds no character and keeps a part on one line |
| TaskGraphService.LineTaskReadable | src/application/services/TaskGraphService.ts:34-39 | what a line yields has an id of the class and single-line dependency text |
| TaskGraphService.DepsSingleLine | src/application/services/TaskGraphService.ts:53-54 | every listed dependency stays on one line |
| TaskGraphService.AddNode | src/application/services/TaskGraphService.ts:45-63 | the `nodes.has` guard: the id is present afterwards and every node is the one its id creates |
| TaskGraphService.AddNodes | src/application/services/TaskGraphService.ts:55-63 | adding ids left to right keeps every node the one its id creates |
| TaskGraphService.EdgesOf | src/application/services/TaskGraphService.ts:53-71 | one edge per dependency entry, from the line's task to that entry, in list order |
| TaskGraphService.Build | src/application/services/TaskGraphService.ts:33-74 | every node of the graph is the one its id creates (name = id, module from `extractModule`) |
| TaskGraphService.AddNodeFirstOccurrence | src/application/services/TaskGraphService.ts:45-51 | adding one id keeps the node ids equal to the first occurrences of the ids seen |
| TaskGraphService.AddNodesFirstOccurrences | src/application/services/TaskGraphService.ts:55-63 | adding a list of ids keeps the node ids equal to the first occurrences of all ids seen |
| TaskGraphService.BuildNodes | src/application/services/TaskGraphService.ts:44-77 | node ids are the mentioned ids at their first mention: unique and in order |
| TaskGraphService.BuildEdges | src/application/services/TaskGraphService.ts:53-72 | the edges are every line's dependencies in order, duplicates kept, so their number is the number of dependency entries |
| TaskGraphService.EdgesMentioned | src/application/services/TaskGraphService.ts:44-70 | every edge joins two mentioned ids |
| TaskGraphService.OwnEdgesMentioned | src/application/services/TaskGraphService.ts:44-70 | a line's edges run from its task to ids its own dependency list names |
| TaskGraphService.ParsedNodes | src/application/services/TaskGraphService.ts:24-81 | the parsed nodes are unique by id, in first-mention order, each named by its id, and the root path is returned unchanged |
| TaskGraphService.ParsedEdgesClosed | src/application/services/TaskGraphService.ts:44-70 | closure: every edge's ends are node ids |
| TaskGraphService.MentionsSingleLine | src/application/services/TaskGraphService.ts:31-54 | every mentioned id stays on one line |
| TaskGraphService.ParsedIdsSingleLine | src/application/services/TaskGraphService.ts:24-81 | every node id of a parsed graph stays on one line |
| TaskGraphService.ParseTaskOutput | src/application/services/TaskGraphService.ts:24-81 | computes the task graph of the command output; its contract is stated by `ParsedNodes`, `ParsedEdgesClosed`, `ParsedIdsSingleLine` and `ParseAppendLines`, with `BuildNodes` and `BuildEdges` for the nodes and edges it assembles |
| TaskGraphService.ParseAppendLines | src/application/services/TaskGraphService.ts:33-74 | lines are read independently: the matched lines of two blocks are those of the first followed by those of the second |
| TaskGraphService.GetTaskGraph | src/application/services/TaskGraphService.ts:7-22 | a failing command's error is passed on unchanged; otherwise the output is parsed with the workspace path as root |
| TaskGraphPanel.SafeId | src/presentation/views/TaskGraphPanel.ts:161-164 | the length is kept, ASCII letters and digits stay in place, every other character becomes `_`, so the result is made of `[A-Za-z0-9_]` |
| TaskGraphPanel.SafeIdIdempotent | src/presentation/views/TaskGraphPanel.ts:163 | making an id safe twice gives the same as once |
| TaskGraphPanel.SafeIdFixedPoints | src/presentation/views/TaskGraphPanel.ts:163 | an id is left unchanged exactly when it is already made of `[A-Za-z0-9_]` |
| TaskGraphPanel.SafeIdCollides | src/presentation/views/TaskGraphPanel.ts:163 | two different ids can share a Mermaid id (`:a` and `_a`) |
| TaskGraphPanel.EdgeLineSingle | src/presentation/views/TaskGraphPanel.ts:84-88 | an edge line `from --> to` never spans two lines |
| TaskGraphPanel.NodeLineSingle | src/presentation/views/TaskGraphPanel.ts:77-82 | a node line `id["name"]` stays on one line when the name does |
| TaskGraphPanel.ClickLineSingle | src/presentation/views/TaskGraphPanel.ts:90-94 | a click line stays on one line when the id does |
| TaskGraphPanel.BlockLines | src/presentation/views/TaskGraphPanel.ts:82-94 | a block of single-line entries joined with newlines splits back into those entries |
| TaskGraphPanel.EdgeBlockLines | src/presentation/views/TaskGraphPanel.ts:84-88 | the edge block has exactly one line per edge, in edge order |
| TaskGraphPanel.ParsedNodeBlockLines | src/presentation/views/TaskGraphPanel.ts:77-94 | for a parsed graph the node block and the click block each have exactly one line per node, in node order |
| TaskGraphPanel.DrawnId | src/presentation/views/TaskGraphPanel.ts:77-82 | every node id is drawn under its Mermaid id |
| TaskGraphPanel.ParsedEdgesDrawn | src/presentation/views/TaskGraphPanel.ts:77-88 | both ends of every edge of a parsed graph are drawn nodes |
| AmperProgressParser.TaskAt | src/domain/utils/AmperProgressParser.ts:6 | the capture after a `Task` at a position is a task id: `:` followed by characters of `[A-Za-z0-9_\-:]` |
| AmperProgressParser.ParseLine | src/domain/utils/AmperProgressParser.ts:6-17 | whatever `parseLine` returns is a task id |
| AmperProgressParser.ParseLineNone | src/domain/utils/AmperProgressParser.ts:11-17 | nothing is returned exactly when no position holds `Task`, whitespace and `:` |
| AmperProgressParser.ParseLineFirstMaximal | src/domain/utils/AmperProgressParser.ts:6-14 | the id comes from the first match in the line and is maximal: the next character, if any, is outside the id class |
| AmperProgressParser.ParseLineMarker | src/domain/utils/AmperProgressParser.ts:3-17 | `Task <id>` and `> Task <id>` read back as the id |
| AmperProgressParser.MarkerAt | src/domain/utils/AmperProgressParser.ts:6 | the match at the `Task` of a marker captures the whole id |
| AmperProgressParser.StepAt | src/domain/utils/AmperProgressParser.ts:22 | a pair at a position is `[`, a non-empty digit run, `/`, a non-empty digit run, `]` |
| AmperProgressParser.ParseStepNone | src/domain/utils/AmperProgressParser.ts:24-33 | nothing is returned exactly when no position starts a pair |
| AmperProgressParser.ParseStepFirst | src/domain/utils/AmperProgressParser.ts:25-30 | the numbers are the decimal values of the two digit runs of the first pair in the line |
| AmperProgressParser.DecimalRoundTrip | src/domain/utils/AmperProgressParser.ts:28-29 | reading the decimal text of a number gives the number back |
| AmperProgressParser.ParseStepText | src/domain/utils/AmperProgressParser.ts:24-33 | any pair `[a/b]` reads back as `a` and `b` |
| AmperProgressParser.ParseStep | src/domain/utils/AmperProgressParser.ts:24-33 | computes the first `[current/total]` pair of a line; its contract is stated by `ParseStepNone`, `ParseStepFirst` and `ParseStepText` |
| AmperProgressParser.StepNotBounded | src/domain/utils/AmperProgressParser.ts:27-30 | a current step beyond the total is passed through: `[2/1]` gives 2 of 1 |
| AdbDeviceService.MatchRow | src/infrastructure/services/AdbDeviceService.ts:102 | `^(\S+)\s+(\w+)\s+(.*)$`: a non-empty serial without whitespace that opens the line, a non-empty word for the state, and a single-line rest that ends it |
| AdbDeviceService.MatchRowText | src/infrastructure/services/AdbDeviceService.ts:102-106 | matching inverts printing a row with single spaces |
| AdbDeviceService.SerialAndStateOnly | src/infrastructure/services/AdbDeviceService.ts:102-103 | a line with only a serial and a state does not match and is dropped |
| AdbDeviceService.StatusOf | src/infrastructure/services/AdbDeviceService.ts:108-113 | `device` gives connected, `unauthorized` gives unauthorized, anything else offline; booting is never produced |
| AdbDeviceService.ModelAt | src/infrastructure/services/AdbDeviceService.ts:116 | `model:(\S+)` at a position captures a non-empty run without whitespace |
| AdbDeviceService.ModelName | src/infrastructure/services/AdbDeviceService.ts:116 | the model value read is non-empty and has no whitespace |
| AdbDeviceService.ModelNameFirst | src/infrastructure/services/AdbDeviceService.ts:116 | no model exactly when no position matches; otherwise the value of the leftmost match |
| AdbDeviceService.ModelNameLeading | src/infrastructure/services/AdbDeviceService.ts:116 | details that open with `model:<value>` yield that value |
| AdbDeviceService.DeviceName | src/infrastructure/services/AdbDeviceService.ts:117 | without a model the name is the serial; otherwise the model, character by character, with each `_` turned into a space and every other character kept (so no `_` is left, and the length is the same) |
| AdbDeviceService.TypeOf | src/infrastructure/services/AdbDeviceService.ts:119-125 | emulator exactly when the serial starts with `emulator-` or the details contain `emulator` |
| AdbDeviceService.ParseAdbOutput | src/infrastructure/services/AdbDeviceService.ts:90-133 | at most one device per line |
| AdbDeviceService.ParsedDevicesWellFormed | src/infrastructure/services/AdbDeviceService.ts:121-128 | every parsed device is Android, never booting, has details, a non-blank serial, the emulator flag and the name the serial and details decide |
| AdbDeviceService.SkippedLines | src/infrastructure/services/AdbDeviceService.ts:95-98 | blank lines and the `List of devices` header yield no device |
| AdbDeviceService.ParseAdbLines | src/infrastructure/services/AdbDeviceService.ts:94-130 | devices follow line order: the devices of two blocks of lines are those of the first then those of the second |
| AdbDeviceService.GetConnectedDevices | src/infrastructure/services/AdbDeviceService.ts:18-33 | any failure of `adb devices -l` gives no devices; otherwise the parsed table |
| AdbDeviceService.SelectDevice | src/infrastructure/services/AdbDeviceService.ts:39-42 | the selection is set, the list is kept, and the device is announced once |
| AdbDeviceService.Refresh | src/infrastructure/services/AdbDeviceService.ts:67-88 | an equal list changes nothing and announces nothing; otherwise the list is stored and announced first, only selection changes follow, and any remaining selection is listed |
| AdbDeviceService.RefreshKeepsOrClears | src/infrastructure/services/AdbDeviceService.ts:78-81 | a selection survives exactly when its id is still listed; a vanished one is announced as cleared right after the list |
| AdbDeviceService.RefreshAutoSelects | src/infrastructure/services/AdbDeviceService.ts:84-86 | with nothing selected, a list of exactly one device selects it and announces it last; any other length leaves nothing selected |
| AdbDeviceService.RefreshIdempotent | src/infrastructure/services/AdbDeviceService.ts:71-73 | a second poll with the same list is silent and changes nothing |
| AdbDeviceService.UncheckedSelectionPersists | src/infrastructure/services/AdbDeviceService.ts:39-73 | a device selected by hand need not be listed, and it stays selected through polls that return the same list |
| TemplateRepository.ValueFrom | src/domain/repositories/ITemplateRepository.ts:84 | `(.+)$` captures the whole non-empty rest of the line |
| TemplateRepository.MatchEntry | src/domain/repositories/ITemplateRepository.ts:84-86 | a matched line gives a non-empty id without `.` and a non-empty single-line value |
| TemplateRepository.MatchEntryText | src/domain/repositories/ITemplateRepository.ts:84-86 | matching inverts writing `template.<id>.<field>=<value>`, for every dot-free id and every non-empty value, `=` included |
| TemplateRepository.MatchEntryAt | src/domain/repositories/ITemplateRepository.ts:84 | the text after the id's dot decides the field and the value |
| TemplateRepository.CommentSkipped | src/domain/repositories/ITemplateRepository.ts:78-81 | a `#` line yields nothing, whatever it holds |
| TemplateRepository.OtherFieldIgnored | src/domain/repositories/ITemplateRepository.ts:84 | a field other than `name` or `description` does not match |
| TemplateRepository.Apply | src/domain/repositories/ITemplateRepository.ts:88-97 | one entry adds its id at the end if new, sets only its own field of its own id, and leaves every other record alone |
| TemplateRepository.CollectIds | src/domain/repositories/ITemplateRepository.ts:88-90 | records are kept in the order their ids first appear |
| TemplateRepository.LastValueStep | src/domain/repositories/ITemplateRepository.ts:93-97 | one more entry changes only the value of its own id and field |
| TemplateRepository.CollectLastWins | src/domain/repositories/ITemplateRepository.ts:77-99 | every collected field holds the last value written for its id |
| TemplateRepository.ApplyLastWins | src/domain/repositories/ITemplateRepository.ts:77-99 | one entry applied to the fields collected from the earlier entries leaves every template holding the last values written, the new entry included |
| TemplateRepository.LastValueUnseen | src/domain/repositories/ITemplateRepository.ts:88-97 | an id no entry mentions has no value |
| TemplateRepository.CompleteOf | src/domain/repositories/ITemplateRepository.ts:104-110 | a record becomes a template with its own id, only when both label and description are non-empty |
| TemplateRepository.CompletesDistinct | src/domain/repositories/ITemplateRepository.ts:102-111 | filtering keeps ids unique |
| TemplateRepository.LabelLeTotal | src/domain/repositories/ITemplateRepository.ts:113 | the label order is total |
| TemplateRepository.Insert | src/domain/repositories/ITemplateRepository.ts:113 | inserting into a sorted list keeps it sorted and adds exactly that template |
| TemplateRepository.InsertDistinct | src/domain/repositories/ITemplateRepository.ts:113 | inserting a template with a new id keeps ids unique |
| TemplateRepository.SortByLabel | src/domain/repositories/ITemplateRepository.ts:113 | the sort is ordered by label and is a permutation |
| TemplateRepository.SortDistinct | src/domain/repositories/ITemplateRepository.ts:113 | sorting keeps ids unique |
| TemplateRepository.DiscoveredSortedUnique | src/domain/repositories/ITemplateRepository.ts:63-114 | discovery's result is sorted by label and names each id at most once |
| TemplateRepository.CompleteLastValues | src/domain/repositories/ITemplateRepository.ts:102-111 | a complete template carries the last label and description of its id, both non-empty |
| TemplateRepository.DiscoveredLastValues | src/domain/repositories/ITemplateRepository.ts:77-113 | every discovered template carries the last non-empty name and description written for its id |
| TemplateRepository.DiscoveredAllComplete | src/domain/repositories/ITemplateRepository.ts:77-113 | every id whose last name and description are non-empty is discovered, with those values |
| TemplateRepository.LastValueSeen | src/domain/repositories/ITemplateRepository.ts:88-97 | an id with a value was mentioned by some entry |
| TemplateRepository.DiscoverTemplates | src/domain/repositories/ITemplateRepository.ts:63-114 | computes the templates listed in the bundled properties text; its contract is stated by `DiscoveredSortedUnique`, `DiscoveredLastValues` and `DiscoveredAllComplete` |
| TemplateRepository.DefaultTemplatesUnique | src/domain/entities/AmperTemplate.ts:27-78 | the fallback list holds ten templates with distinct ids |
| TemplateRepository.RefreshTemplates | src/domain/repositories/ITemplateRepository.ts:44-57 | a non-empty discovery is cached and returned; an empty one or a failure caches and returns the defaults; the result is never empty |
| TemplateRepository.GetTemplates | src/domain/repositories/ITemplateRepository.ts:37-42 | a set cache is returned without discovering again; the result is never empty and is what the cache holds afterwards |
| TemplateRepository.GetTemplatesStable | src/domain/repositories/ITemplateRepository.ts:37-57 | after the first lookup, later lookups return the same list whatever discovery would give |
| TaskService.ModuleTasks | src/application/services/TaskService.ts:13-22 | a module gets Build first and Test last, with Run in between exactly when its type contains `app`; every entry carries the module's name |
| TaskService.AppCount | src/application/services/TaskService.ts:17 | the number of application modules is at most the number of modules |
| TaskService.TasksOf | src/application/services/TaskService.ts:12-22 | 2·modules + application modules entries, only Build, Run and Test, each naming one of the modules |
| TaskService.GetTasksForWorkspace | src/application/services/TaskService.ts:8-25 | nothing exactly when no project is found; otherwise the project unchanged and 2·modules + application modules tasks |
| TaskService.TypesForAppend | src/application/services/TaskService.ts:13-22 | the entries for a name in two lists are those of the first then those of the second |
| TaskService.ModuleTypes | src/application/services/TaskService.ts:14-21 | one module's entries are its expected types under its own name and none under any other |
| TaskService.TypesForOne | src/application/services/TaskService.ts:14-21 | a single entry counts for its own module only |
| TaskService.TypesForLast | src/application/services/TaskService.ts:13-22 | the entries for a name are those of the earlier modules followed by the last module's |
| TaskService.UniqueNamesInit | src/application/services/TaskService.ts:13 | with unique names, the earlier modules keep unique names and none is the last module's |
| TaskService.TasksPerModule | src/application/services/TaskService.ts:13-22 | with unique module names, a module's entries are exactly Build, then Run if it is an application, then Test |
| TaskService.TasksPerEarlierModule | src/application/services/TaskService.ts:13-22 | the same for a module before the last one: the modules pushed after it add nothing under its name |
| TaskService.TasksPerLastModule | src/application/services/TaskService.ts:13-22 | the same for the last module: the modules pushed before it list nothing under its name |
| TaskService.TwoModules | src/application/services/TaskService.ts:13-22 | two differently named modules each get exactly their own Build, Run-if-application, Test entries |
| TaskService.TypesNone | src/application/services/TaskService.ts:13-22 | a name no module carries has no entries |
| TaskService.AppAndLibTasks | src/test/taskService.test.ts:21-38 | for the test's project, `app` gets Build, Run, Test and `lib` gets Build, Test; neither gets Clean, although the test expects it |
| JdkRepository.PathJoinNonEmpty | src/infrastructure/repositories/FileSystemJdkRepository.ts:9-13 | segments that are all non-empty are joined with the separator as they are |
| JdkRepository.Win32CachePath | src/infrastructure/repositories/FileSystemJdkRepository.ts:8-9 | on win32 the path is `LOCALAPPDATA\JetBrains\Amper`, or the relative `JetBrains\Amper` when the variable is unset or empty |
| JdkRepository.DarwinCachePath | src/infrastructure/repositories/FileSystemJdkRepository.ts:10-11 | on darwin the path is `home/Library/Caches/JetBrains/Amper` |
| JdkRepository.OtherCachePath | src/infrastructure/repositories/FileSystemJdkRepository.ts:12-13 | elsewhere the path is `home/.cache/JetBrains/Amper` |
| JdkRepository.VersionAt | src/infrastructure/repositories/FileSystemJdkRepository.ts:47 | a version at a position is a substring of at least five characters of the name |
| JdkRepository.VersionAtGroups | src/infrastructure/repositories/FileSystemJdkRepository.ts:47 | three maximal digit groups joined by dots at a position are the version read there |
| JdkRepository.ExtractVersionUnknown | src/infrastructure/repositories/FileSystemJdkRepository.ts:45-49 | `Unknown` exactly when no position starts `\d+\.\d+\.\d+` |
| JdkRepository.ExtractVersionFirst | src/infrastructure/repositories/FileSystemJdkRepository.ts:47-48 | otherwise the version is the match at the leftmost position that has one |
| JdkRepository.ExtractVersionOf | src/infrastructure/repositories/FileSystemJdkRepository.ts:47-48 | after a digit-free prefix, the three digit groups `a.b.c` are read exactly |
| JdkRepository.ExtractVersion | src/infrastructure/repositories/FileSystemJdkRepository.ts:45-49 | computes the `\d+\.\d+\.\d+` version of a directory name, else `Unknown`; its contract is stated by `ExtractVersionUnknown`, `ExtractVersionFirst` and `ExtractVersionOf` |
| JdkRepository.TypeOf | src/infrastructure/repositories/FileSystemJdkRepository.ts:36 | JRE exactly when the lower-cased name contains `jre` |
| JdkRepository.PathJoinTwo | src/infrastructure/repositories/FileSystemJdkRepository.ts:29 | joining a directory and a non-empty name puts the separator between them, and gives the name alone when the directory is empty |
| JdkRepository.JdkOf | src/infrastructure/repositories/FileSystemJdkRepository.ts:28-37 | an entry is kept exactly when its name contains `jre`, `jdk` or `zulu` and it is a directory; id and name are the directory name, version and type as extracted; the path is the cache path, the platform's separator (`\` on Windows, `/` elsewhere) and the name |
| JdkRepository.GetInstalledJdks | src/infrastructure/repositories/FileSystemJdkRepository.ts:17-43 | the cache path of the platform is listed; a missing cache directory gives none; otherwise at most one JDK per entry, each built from a passing entry |
| JdkRepository.Win32JdkPath | src/infrastructure/repositories/FileSystemJdkRepository.ts:8-29 | on Windows with `LOCALAPPDATA` set, a JDK's path is `LOCALAPPDATA\JetBrains\Amper\<name>`, with backslashes throughout |
| JdkRepository.InstalledSingle | src/infrastructure/repositories/FileSystemJdkRepository.ts:26-40 | one entry yields one JDK exactly when it passes both tests |
| JdkRepository.InstalledAppend | src/infrastructure/repositories/FileSystemJdkRepository.ts:26-40 | the listing is read entry by entry in order, so the result is a subsequence of the listing |
| JdkRepository.InstalledKeeps | src/infrastructure/repositories/FileSystemJdkRepository.ts:26-40 | every passing entry is listed |
| JdkRepository.UpperCaseJre | src/infrastructure/repositories/FileSystemJdkRepository.ts:28-36 | the name test is case-sensitive and the classification is not: `zulu-JRE` passes through `zulu` and is a JRE |
| SchemaTypes.TrimmedArgument | tools/schema-extractor/src/types.rs:85-86 | a piece survives trimming only when something is left, and what is left has no surrounding whitespace |
| SchemaTypes.Arguments | tools/schema-extractor/src/types.rs:83-87 | every value is non-empty, holds no `,` and has no surrounding whitespace |
| SchemaTypes.ExtractAnnotationValues | tools/schema-extractor/src/types.rs:79-91 | empty when the annotation lacks `(` or `)`; every value is non-empty, comma-free and trimmed; requires the last `)` to follow the first `(`, as the slice panics otherwise |
| SchemaTypes.ArgumentsOfJoin | tools/schema-extractor/src/types.rs:83-87 | values written with commas between them are read back exactly |
| SchemaTypes.ParenthesesAround | tools/schema-extractor/src/types.rs:80-82 | in `name(content)` the first `(` and the last `)` enclose the content |
| SchemaTypes.ExtractAnnotationValuesOf | tools/schema-extractor/src/types.rs:79-91 | an annotation written as `name(v1,…,vn)` gives back exactly its values |
| SchemaTypes.ArgumentsInParentheses | tools/schema-extractor/src/types.rs:79-91 | the values of `name(content)` are the comma-separated arguments of `content`, read between the first `(` and the last `)` |
| SchemaTypes.TrimmedIdentity | tools/schema-extractor/src/types.rs:85-86 | values that are already trimmed and non-empty pass through unchanged |
| SchemaTypes.EmptyArgumentsDropped | tools/schema-extractor/src/types.rs:84-86 | blank and empty arguments leave no value: `A( , ,)` gives none |
| SchemaTypes.BlankArguments | tools/schema-extractor/src/types.rs:84-86 | the text ` , ,` holds no argument |
| SchemaTypes.BlankDropped | tools/schema-extractor/src/types.rs:85-86 | a blank or empty piece is dropped |
| SchemaTypes.TaggedSliceable | tools/schema-extractor/src/types.rs:61-82 | annotations that open with `PlatformSpecific(` or `ProductTypeSpecific(` never reach the panicking slice |
| SchemaTypes.GetPlatformSpecific | tools/schema-extractor/src/types.rs:61-67 | a value is returned exactly when some annotation starting with `PlatformSpecific(` carries it |
| SchemaTypes.GetProductTypeSpecific | tools/schema-extractor/src/types.rs:70-76 | a value is returned exactly when some annotation starting with `ProductTypeSpecific(` carries it |
| SchemaTypes.GatherMembers | tools/schema-extractor/src/types.rs:62-66 | the gathered values are exactly those of the visited annotations with the tag |
| SchemaTypes.GatherOrderFree | tools/schema-extractor/src/types.rs:62-66 | any two iteration orders of the same set give the same values, each the same number of times |
| SchemaTypes.PlatformSpecificOrderFree | tools/schema-extractor/src/types.rs:61-67 | the platform values are the same multiset whatever the hash set's iteration order |
| SchemaTypes.ProductTypeSpecificOrderFree | tools/schema-extractor/src/types.rs:70-76 | the product-type values are the same multiset whatever the hash set's iteration order |
| SchemaTypes.IsHidden | tools/schema-extractor/src/types.rs:44-47 | a property is hidden when the bare name `HiddenFromCompletion` is among its annotations; what follows from it is stated by `JsonSchema.VisibleExact`, `JsonSchema.VisibleNames`, `SchemaParser.HiddenMarkerFound` and `SchemaParser.AsWrittenLookupsNeverMatch` |
| SchemaTypes.IsShorthand | tools/schema-extractor/src/types.rs:49-53 | a property is a shorthand when the bare name `Shorthand` is among its annotations; the source never calls it, and `SchemaParser.AsWrittenLookupsNeverMatch` states that it never holds as written |
| SchemaTypes.IsModifierAware | tools/schema-extractor/src/types.rs:55-58 | a property is modifier-aware when the bare name `ModifierAware` is among its annotations; what follows from it is stated by `JsonSchema.ClassObjectPatterns` and `SchemaParser.AsWrittenLookupsNeverMatch` |
| SchemaParser.ParseTypeInfo | tools/schema-extractor/src/parser.rs:192-216 | nullable exactly when the trimmed text ends with `?`; never both list and map; a plain type is the trimmed text without its trailing `?`s; requires `List<`/`Map<` types to close with `>`, as the unwrap panics otherwise |
| SchemaParser.TrimQuestions | tools/schema-extractor/src/parser.rs:197 | every trailing `?` is removed, and nothing more |
| SchemaParser.TypeTextTrimmed | tools/schema-extractor/src/parser.rs:193 | a type text without surrounding whitespace is its own trim |
| SchemaParser.BaseOf | tools/schema-extractor/src/parser.rs:193-197 | a type followed by n question marks is nullable exactly when n > 0, and its base is the type |
| SchemaParser.ListTypeOf | tools/schema-extractor/src/parser.rs:200-203 | `List<T>` followed by question marks gives `T`, a list, nullable exactly when a `?` followed |
| SchemaParser.MapTypeOf | tools/schema-extractor/src/parser.rs:206-212 | `Map<K, V>` gives the trimmed text after the first comma, a map |
| SchemaParser.PlainTypeOf | tools/schema-extractor/src/parser.rs:206-215 | any other type, a `Map<…>` without a comma included, is read as written, neither list nor map |
| SchemaParser.DocAt | tools/schema-extractor/src/parser.rs:220 | `@SchemaDoc\s*\(\s*"([^"]*)"` at a position captures text without a quote |
| SchemaParser.ExtractDocString | tools/schema-extractor/src/parser.rs:219-226 | the result holds no quote, and it is empty when no position matches |
| SchemaParser.ExtractDocStringFirst | tools/schema-extractor/src/parser.rs:221-222 | with a match, the result is the text of the leftmost one |
| SchemaParser.DocAtOf | tools/schema-extractor/src/parser.rs:220 | `@SchemaDoc("doc"` at a position captures `doc` |
| SchemaParser.ExtractDocStringOf | tools/schema-extractor/src/parser.rs:219-226 | the text of `@SchemaDoc("doc")` is read back, whatever follows |
| SchemaParser.AnnotationEnd | tools/schema-extractor/src/parser.rs:184 | a match of `@(\w+)(?:\([^\)]*\))?` starts with `@` and is at least two characters long |
| SchemaParser.ScanAnnotations | tools/schema-extractor/src/parser.rs:185-187 | the successive non-overlapping matches each start with `@` |
| SchemaParser.ParseAnnotationsAsWritten | tools/schema-extractor/src/parser.rs:183-189 | the set holds exactly the whole matches, each with its leading `@` |
| SchemaParser.ParseAnnotations | tools/schema-extractor/src/parser.rs:183-189 | the set the lookups of types.rs expect: exactly the matches without their `@` |
| SchemaParser.MarkerAnnotation | tools/schema-extractor/src/parser.rs:184 | a lone marker `@name` is exactly one match |
| SchemaParser.NoAnnotationAfter | tools/schema-extractor/src/parser.rs:184-187 | without another `@` nothing more is matched |
| SchemaParser.FirstWithPrefix | tools/schema-extractor/src/parser.rs:159-162 | the first annotation with the prefix, in the order given; none when no annotation has it |
| SchemaParser.StringTypeOf | tools/schema-extractor/src/parser.rs:153 | the default type `String` is plain and not nullable |
| SchemaParser.PropertyOf | tools/schema-extractor/src/parser.rs:150-177 | the property keeps the captured name, has no default value, and stores the annotations by bare name; its type name and nullable, list and map flags are those `parse_type_info` gives for the trimmed type text (a non-nullable `String` without one); its doc is the `extract_doc_string` of the first `@SchemaDoc(` annotation in written order, and None without one |
| SchemaParser.DocumentedProperty | tools/schema-extractor/src/parser.rs:156-162 | a property whose annotations open with `@SchemaDoc("doc")` is documented by `doc`, whatever annotations follow |
| SchemaParser.SchemaDocFirst | tools/schema-extractor/src/parser.rs:184-188 | the first annotation matched in `@SchemaDoc("doc")` followed by anything is that whole annotation |
| SchemaParser.SchemaDocText | tools/schema-extractor/src/parser.rs:219-226 | `@SchemaDoc("doc")`, with anything after it, reads back as `doc` |
| SchemaParser.NoDocWithoutAt | tools/schema-extractor/src/parser.rs:219-226 | text without an `@` reads back as the empty string, because the pattern needs the literal `@SchemaDoc`; so a doc annotation stored by bare name (`SchemaDoc("doc")`) would give the empty doc |
| SchemaParser.PropertyNeverGeneric | tools/schema-extractor/src/parser.rs:147-165 | the type argument the regex captures holds no `>`, so a parsed property is never a list or a map |
| SchemaParser.PropertyOfAsWritten | tools/schema-extractor/src/parser.rs:150-189 | as written: the annotations are stored with their `@` |
| SchemaParser.AsWrittenMarked | tools/schema-extractor/src/parser.rs:187 | every stored annotation starts with `@` |
| SchemaParser.NoDocPrefix | tools/schema-extractor/src/parser.rs:159-162 | no stored annotation starts with `SchemaDoc(`, so the doc lookup finds nothing |
| SchemaParser.AsWrittenLookupsNeverMatch | tools/schema-extractor/src/types.rs:40-76 | on what the parser stores, no property is hidden, modifier-aware or a shorthand, none has platform or product-type values, and none gets a doc |
| SchemaParser.AsWrittenNoMarkers | tools/schema-extractor/src/types.rs:40-58 | the bare-name lookups never match the stored annotations |
| SchemaParser.MarkedNoTags | tools/schema-extractor/src/types.rs:61-76 | the `PlatformSpecific(` and `ProductTypeSpecific(` prefixes never match annotations that start with `@` |
| SchemaParser.NoTaggedValues | tools/schema-extractor/src/types.rs:62-66 | annotations that start with `@` carry no tag that does not |
| SchemaParser.MarkerStored | tools/schema-extractor/src/parser.rs:183-189 | a lone `@name` is stored as `@name` as written, and as `name` once the `@` is dropped |
| SchemaParser.HiddenMarkerFound | tools/schema-extractor/src/parser.rs:183-189 | `@HiddenFromCompletion` is stored with its `@` as written; with the `@` dropped the property is hidden |
| SchemaParser.PropertiesOf | tools/schema-extractor/src/parser.rs:150-179 | one property per capture, in order, each built by the corrected `PropertyOf` (annotations by bare name) |
| SchemaParser.ClassOf | tools/schema-extractor/src/parser.rs:111-135 | a kept class keeps its name and sealed flag, has no subclasses yet, its properties are exactly `PropertiesOf` of its captures (built by the corrected `PropertyOf`), its doc is the `extract_doc_string` of the captured `@SchemaDoc(…)` text and None without one, and it has no parent exactly when the parent is `SchemaNode` |
| SchemaParser.DocumentedClass | tools/schema-extractor/src/parser.rs:108-112 | a class captured with `@SchemaDoc("doc")` before it is documented by `doc` |
| SchemaParser.AddClassDistinct | tools/schema-extractor/src/parser.rs:125-135 | inserting a class keeps the class names unique |
| SchemaParser.AddClassWellKeyed | tools/schema-extractor/src/parser.rs:125-135 | a kept class is inserted under its own name, so every class stays stored under its name |
| SchemaParser.ParseClasses | tools/schema-extractor/src/parser.rs:105-139 | enums are untouched, class names stay unique, and every class stays stored under its own name; properties are built by the corrected `PropertyOf` |
| SchemaParser.LastKept | tools/schema-extractor/src/parser.rs:118-121 | the capture found is kept (its parent is whitelisted), carries the name and is one of the captures |
| SchemaParser.ParseClassesGet | tools/schema-extractor/src/parser.rs:111-136 | afterwards a name holds the class of its last kept capture; a name no kept capture carries keeps what it held |
| SchemaParser.ChildWitness | tools/schema-extractor/src/parser.rs:238-245 | every listed subclass is the key of a class with that parent |
| SchemaParser.ChildListed | tools/schema-extractor/src/parser.rs:238-245 | every class with that parent is listed, in map order |
| SchemaParser.ChildrenOfSameParents | tools/schema-extractor/src/parser.rs:238-245 | only keys and parents decide the subclasses, so resolving one class does not change another's |
| SchemaParser.SealedWitness | tools/schema-extractor/src/parser.rs:230-235 | every listed sealed name is the key of a sealed class |
| SchemaParser.SealedListed | tools/schema-extractor/src/parser.rs:230-235 | every sealed class is listed |
| SchemaParser.ResolveSealedHierarchies | tools/schema-extractor/src/parser.rs:229-251 | every sealed class's subclasses become exactly the keys of the classes whose parent it is, in map order; every other class, the keys and the enums are unchanged; classes stay stored under their own names |
| SchemaParser.ResolvedKeys | tools/schema-extractor/src/parser.rs:247-249 | resolving changes no key |
| SchemaParser.ResolveStep | tools/schema-extractor/src/parser.rs:237-250 | one turn of the loop resolves exactly the entry of its sealed name |
| SchemaParser.ResolvedAll | tools/schema-extractor/src/parser.rs:237-250 | once every sealed name is done, every entry is resolved |
| SchemaParser.SealedNamesExact | tools/schema-extractor/src/parser.rs:230-235 | with unique keys, a key is listed exactly when its class is sealed |
| SchemaParser.ListedIffSealed | tools/schema-extractor/src/parser.rs:230-235 | a class with a unique key is listed exactly when it is sealed |
| JsonSchema.FieldWith | tools/schema-extractor/src/schema.rs:128-145 | inserting into an object sets that key and leaves every other field as it was |
| JsonSchema.RemoveAll | tools/schema-extractor/src/schema.rs:289 | removing a pattern never lengthens the text |
| JsonSchema.RemoveAllAbsent | tools/schema-extractor/src/schema.rs:289 | text without `[Read more]` is left as it is |
| JsonSchema.RemoveAllAround | tools/schema-extractor/src/schema.rs:289 | the first occurrence is dropped and the rest is scanned after it |
| JsonSchema.RemoveParens | tools/schema-extractor/src/schema.rs:290 | no parenthesis is left and every other character is kept as often as it occurred |
| JsonSchema.ShortDoc | tools/schema-extractor/src/schema.rs:288-294 | the title holds no parenthesis, does not start with whitespace and does not end with a dot |
| JsonSchema.TrimmedTitle | tools/schema-extractor/src/schema.rs:291-292 | trimming and dropping trailing dots keeps text free of parentheses and leaves no dot at the end nor whitespace at the start |
| JsonSchema.ShortDocOfShort | tools/schema-extractor/src/schema.rs:288-294 | a doc that is already in short form is its own title |
| JsonSchema.ParenFree | tools/schema-extractor/src/schema.rs:290 | text without parentheses passes through unchanged |
| JsonSchema.ScalarSchema | tools/schema-extractor/src/schema.rs:229-243 | `type` is `integer` for `Int`/`Integer`, `boolean` for `Boolean`, `number` for `Double`/`Float` and `string` for everything else; a table entry is `type` alone, and any other type also gets the description `Type: …` |
| JsonSchema.TraceableInnerIff | tools/schema-extractor/src/schema.rs:221-222 | the inner name is found exactly when the type is `TraceableEnum<` + name + `>` |
| JsonSchema.EnumSchema | tools/schema-extractor/src/schema.rs:246-284 | an enum schema is an object |
| JsonSchema.EnumValuesExact | tools/schema-extractor/src/schema.rs:247-252 | a value is listed exactly when some entry that is not outdated carries it |
| JsonSchema.EnumValuesAppend | tools/schema-extractor/src/schema.rs:247-252 | the values keep the order of the entries |
| JsonSchema.EnumValues | tools/schema-extractor/src/schema.rs:247-252 | computes the values an enum schema lists; its contract is stated by `EnumValuesExact` and `EnumValuesAppend` |
| JsonSchema.EnumSchemaFields | tools/schema-extractor/src/schema.rs:254-281 | `enum` lists the kept values; `x-intellij-enum-order-sensitive` is `true` exactly for order-sensitive enums; `x-intellij-enum-metadata` appears exactly when some kept entry has a doc |
| JsonSchema.MetadataNonEmpty | tools/schema-extractor/src/schema.rs:259-271 | the metadata map is empty exactly when no pair was collected |
| JsonSchema.EnumMetadataGet | tools/schema-extractor/src/schema.rs:259-269 | a value is described by the doc of its last kept, documented entry |
| JsonSchema.Wrapped | tools/schema-extractor/src/schema.rs:153-172 | a list or map property becomes an array with unique items |
| JsonSchema.ElementOfWrapped | tools/schema-extractor/src/schema.rs:153-172 | the element schema is recovered from the wrapper: the items of a list, the pattern value of a map's items, or the schema itself |
| JsonSchema.PropertySchemaWraps | tools/schema-extractor/src/schema.rs:150-206 | doc and metadata never touch the wrapper: a list or map property stays an array of unique items holding the element schema |
| JsonSchema.DocumentedKeeps | tools/schema-extractor/src/schema.rs:175-180 | the doc sets only `description` and `title` |
| JsonSchema.PropertySchemaDoc | tools/schema-extractor/src/schema.rs:175-203 | a documented property is described by its doc and titled by its short doc; `x-intellij-metadata` appears exactly when it has platform or product-type values |
| JsonSchema.PropertySchema | tools/schema-extractor/src/schema.rs:150-206 | computes a property's schema from its element schema; its contract is stated by `Wrapped`, `ElementOfWrapped`, `PropertySchemaWraps`, `DocumentedKeeps` and `PropertySchemaDoc` |
| JsonSchema.MergeShape | tools/schema-extractor/src/schema.rs:79-91 | the class's own properties come first and unchanged; every later one is inherited and named unlike every own property |
| JsonSchema.MergeCovers | tools/schema-extractor/src/schema.rs:85-89 | every inherited name is present after the merge |
| JsonSchema.MergeHasName | tools/schema-extractor/src/schema.rs:85-89 | the name of any one inherited property is present after the merge |
| JsonSchema.MergeStepKeeps | tools/schema-extractor/src/schema.rs:85-89 | merging one more inherited property keeps every name already present |
| JsonSchema.MergeStepAdds | tools/schema-extractor/src/schema.rs:85-89 | merging one more inherited property leaves its name present, whether it was added or its name was already taken |
| JsonSchema.MergeUniqueNames | tools/schema-extractor/src/schema.rs:85-89 | with unique own names the merged names are unique |
| JsonSchema.MergeProperties | tools/schema-extractor/src/schema.rs:79-91 | computes a class's own properties followed by each inherited one whose name is not yet present; its contract is stated by `MergeShape`, `MergeCovers`, `MergeHasName`, `MergeStepKeeps`, `MergeStepAdds` and `MergeUniqueNames` |
| JsonSchema.VisibleExact | tools/schema-extractor/src/schema.rs:98-101 | a property is visited exactly when it is in the list and not hidden |
| JsonSchema.VisibleNames | tools/schema-extractor/src/schema.rs:98-115 | a name is listed exactly when some property of that name is not hidden |
| JsonSchema.RequiredNamesExact | tools/schema-extractor/src/schema.rs:117-120 | a name is required exactly when a visible property of that name is neither nullable nor defaulted |
| JsonSchema.ModifierPatternInjective | tools/schema-extractor/src/schema.rs:106-112 | different names never share a pattern |
| JsonSchema.PatternForm | tools/schema-extractor/src/schema.rs:107-111 | a name that starts with `test-` gets `^name(@.+)?$`, any other name `^(test-)?name(@.+)?$` |
| JsonSchema.PropertyPairs | tools/schema-extractor/src/schema.rs:115 | the keys of `properties` are the visible names, in order |
| JsonSchema.PatternPairs | tools/schema-extractor/src/schema.rs:106-113 | a pattern is a key exactly when it is the pattern of a visible modifier-aware property |
| JsonSchema.PatternKeys | tools/schema-extractor/src/schema.rs:106-113 | a pattern is present exactly for the names of the modifier-aware properties, and some pattern is present exactly when one of them is |
| JsonSchema.FieldWithIf | tools/schema-extractor/src/schema.rs:129-144 | a conditional insert sets its key only when the condition holds |
| JsonSchema.ClassFieldsField | tools/schema-extractor/src/schema.rs:129-141 | `properties`, `patternProperties` and `required` are set by their own steps and only under their own conditions |
| JsonSchema.ClassObjectField | tools/schema-extractor/src/schema.rs:123-145 | a class definition is a closed object; `properties` and `patternProperties` appear when not empty, `required` when some but not all properties are required, `title` when the class has a doc, and nothing else |
| JsonSchema.ClassObjectProperties | tools/schema-extractor/src/schema.rs:98-130 | `properties` appears exactly when some property is visible and holds exactly the visible names |
| JsonSchema.ClassObjectPatterns | tools/schema-extractor/src/schema.rs:106-134 | `patternProperties` appears exactly when some visible property is modifier-aware, and holds exactly their patterns |
| JsonSchema.ClassObject | tools/schema-extractor/src/schema.rs:123-145 | computes the closed object that defines a plain class; its contract is stated by `ClassObjectField`, `ClassObjectProperties` and `ClassObjectPatterns` |
| SchemaBuilder.BudgetShrinks | tools/schema-extractor/src/schema.rs:48-148 | entering a class not yet being built leaves fewer classes to enter, so the recursion ends or re-enters a class it is building |
| SchemaBuilder.InsertKeepsPrefix | tools/schema-extractor/src/schema.rs:69-74 | definitions only grow: inserting a new name keeps every earlier definition in place |
| SchemaBuilder.BuildClass | tools/schema-extractor/src/schema.rs:48-148 | a class already defined is skipped and nothing changes; when building ends, the class is defined and every earlier definition is kept |
| SchemaBuilder.BuildVariants | tools/schema-extractor/src/schema.rs:58-67 | the variants are references to exactly the listed subclasses that are known classes, in order, and earlier definitions are kept |
| SchemaBuilder.BuildProperties | tools/schema-extractor/src/schema.rs:98-121 | one schema per visible property, and earlier definitions are kept |
| SchemaBuilder.BuildPropertySchema | tools/schema-extractor/src/schema.rs:150-206 | building a property's schema keeps earlier definitions |
| SchemaBuilder.BuildTypeSchema | tools/schema-extractor/src/schema.rs:208-244 | the checks in order: an enum gives its enum schema; otherwise a class gives a reference to it once its definition exists; otherwise `TraceableEnum<E>` of a known enum `E` gives `E`'s enum schema; otherwise the scalar schema of the table. Only the class case adds definitions |
| SchemaBuilder.KeyedName | tools/schema-extractor/src/parser.rs:125-135 | in a well-keyed context, which `ParseClasses` and `ResolveSealedHierarchies` keep well-keyed, the class found under a key carries that key as its name |
| SchemaBuilder.Build | tools/schema-extractor/src/schema.rs:27-46 | the error `Root type '…' not found` exactly when the root is not a class; otherwise a schema whose `allOf` references the root and whose `$defs` define it |
| SchemaBuilder.RootFields | tools/schema-extractor/src/schema.rs:36-45 | the root schema's `allOf` holds the one reference to the root and `$defs` holds the definitions |
| SchemaBuilder.RootSchema | tools/schema-extractor/src/schema.rs:36-45 | computes the root schema document; its contract is stated by `RootFields` and `BuildRootDefined` |
| SchemaBuilder.BuildRootDefined | tools/schema-extractor/src/schema.rs:27-45 | in a well-keyed context, as the parser produces, the reference in `allOf` resolves: `$defs` holds a definition under the root's name |
| SchemaBuilder.VariantRefsMember | tools/schema-extractor/src/schema.rs:58-67 | a reference to a name is among the variants exactly when the name is a listed subclass and a known class |
| SchemaBuilder.RefToInjective | tools/schema-extractor/src/schema.rs:217 | references to different names differ |
| SchemaBuilder.SealedDefinition | tools/schema-extractor/src/schema.rs:57-75 | a sealed class with subclasses is defined as `anyOf` the references to its known subclasses |
| SchemaBuilder.PlainDefinition | tools/schema-extractor/src/schema.rs:77-147 | any other class is defined as the closed object built from one schema per visible merged property |
| SchemaBuilder.TypeRefDefined | tools/schema-extractor/src/schema.rs:214-218 | in a well-keyed context, as the parser produces, a class type's schema is a reference to a definition that exists |
| IndexMaps.Get | tools/schema-extractor/src/schema.rs:29-52 | a key is found exactly when it is present, and the value found is stored under it |
| IndexMaps.Insert | tools/schema-extractor/src/schema.rs:69-74 | a new key is appended at the end; a present key keeps its position; either way the key is then present |
| IndexMaps.GetInsert | tools/schema-extractor/src/parser.rs:125-135 | after an insert the key holds the new value and every other key keeps its value |
| IndexMaps.InsertDistinct | tools/schema-extractor/src/parser.rs:125-135 | inserting keeps keys unique |
| IndexMaps.GetFromPairs | tools/schema-extractor/src/schema.rs:259-269 | a map collected from pairs holds, for each key, the value of its last pair |
| IndexMaps.FromPairsKeys | tools/schema-extractor/src/schema.rs:259-269 | the keys of a collected map are exactly the keys of its pairs |

## Left out

- Process spawning (`NodeProcessExecutor`, shells, exit codes). The executor is a parameter that yields the output or an error.
- Timers: the device poller's interval, the loader's retry sleeps and the diagnostic `timestamp`. Only the decisions and the delay values are modelled.
- Dependencies.Load: the retry chain is one atomic step. In the source, `return this.loadDependencies(retryCount + 1)` (AmperDependencyProvider.ts:279) is not awaited. The retry sets the flag and suspends on its fetch, and the outer call's `finally` (:285-288) then clears the flag and fires a change while that fetch is pending. A tree request in that window finds the flag clear and the list still empty (:249-251), so it starts a second chain, and the list kept is the one from whichever chain finishes last. From the first retry on, the flag stays clear until the chain ends, so the source ignores a request only during the first fetch and the first sleep. Interleaved chains are not modelled, and `Load`'s promise that a request made while loading changes nothing holds in the source only for that first stretch.
- VS Code wiring, tree and code-lens providers, webviews, HTML, `getNonce` and logging: they hold no parsing or decision logic. The listeners of the device poller are modelled as the list of notifications a transition emits.
- File-system calls (`existsSync`, `readFileSync`, `readdirSync`, `statSync`): their results are inputs.
- `localeCompare`: templates are sorted by code-point order on their labels, a total order that stands in for the locale collation.
- `JSON.stringify` equality of device lists: modelled as structural equality of the lists.
- `parseInt` on digit runs: read as the exact decimal value of the run; the loss of precision of JavaScript numbers past 2^53 is not modelled.
- UTF-16 surrogate pairs: strings are sequences of characters, with no distinction between code units and code points. The model reads `\w` as `[A-Za-z0-9_]`. That is JavaScript's `\w`, while Rust's regex `\w` (parser.rs:184) is Unicode, so an annotation name with a non-ASCII letter is cut short in the model.
- Project discovery (`FileSystemProjectRepository`, `ProjectService`): YAML parsing, directory walks and downloads. The project is an input to `TaskService`.
- Schema extractor I/O: `main.rs`, the `WalkDir` scan and file writing.
- `parse_enums`, and the multi-line regexes that capture classes and properties from Kotlin source. The model starts from the captured fields.
- serde_json's own key order: JSON objects are modelled as insertion-ordered association lists.
- `HashSet` iteration order: a parameter, and the annotation lookups are proved to give the same multiset for every order.
- Dependencies.AppendAtSpine: its own contract states only that the label is kept. Where the child goes is stated by `AppendAtSpineParents` and `AppendAtSpineNodes`.
- Dependencies.Insert: its own contract does not say which node the new node hangs from. `InsertParents` states that.
- Dependencies.ParseKinds: its own contract states the pre-order only. The parents are stated by `ParseKindsParents`.
- Diagnostics.Enhance: `toLowerCase` is modelled for ASCII capitals, U+212A and U+0130, and keeps every other character as it is. Other capitals lower-case to non-ASCII letters, and no rule text holds those, so no rule's outcome changes.
- Diagnostics.EnhanceRules: its rules are evaluated on the same lower-casing as `Enhance`, with other non-ASCII characters kept as they are.
- JdkRepository.PathJoin: `path.join` also normalises the joined path. It collapses repeated separators, resolves `.` and `..` segments, and on Windows turns `/` into `\`. The model only drops empty segments and joins the rest with the separator.
- JdkRepository.PathJoinNonEmpty: states the join without that normalisation.
- JdkRepository.PathJoinTwo: states the join without that normalisation.
- JdkRepository.Win32CachePath: states the path without that normalisation. A `LOCALAPPDATA` that ends in `\` gives a doubled separator here and a single one in the source.
- JdkRepository.DarwinCachePath: states the path without that normalisation. A home of `/` gives `//Library/Caches/JetBrains/Amper` here and `/Library/Caches/JetBrains/Amper` in the source.
- JdkRepository.OtherCachePath: states the path without that normalisation. A home of `/` gives `//.cache/JetBrains/Amper` here and `/.cache/JetBrains/Amper` in the source.
- JdkRepository.JdkOf: the path is joined without that normalisation.
- JdkRepository.Win32JdkPath: states the path without that normalisation.
- JdkRepository.TypeOf: it uses the same lower-casing, with other non-ASCII characters kept as they are.
- SchemaParser.ParseClasses: it builds properties with the corrected `PropertyOf`, which stores annotations without `@` and reads the doc from the first `@SchemaDoc(`. The code as written stores `@name` (parser.rs:187), as `PropertyOfAsWritten` and the row under "## Findings" show. Classes parsed as written are not modelled.
- SchemaParser.PropertiesOf: uses the corrected `PropertyOf`, for the same reason.
- SchemaParser.ClassOf: uses the corrected `PropertyOf`, for the same reason.
- SchemaParser.PropertyOf: the doc is read from the first `@SchemaDoc(` annotation in written order. The source's `find` (parser.rs:159-162) runs over a `HashSet`, so when a property carries two different doc annotations the one it picks depends on hash order; that choice is not modelled.
- SchemaBuilder.Build: the source does not return on a class that re-enters itself before it is defined. The model returns `None` there, and states its results only for the runs that return.
- SchemaBuilder.BuildPropertySchema: its contract states only that definitions grow. The shape of the schema it returns is stated by `JsonSchema.PropertySchemaWraps` and `JsonSchema.PropertySchemaDoc` on `JsonSchema.PropertySchema`, which it calls.
- SchemaBuilder.BuildProperties: its contract states one schema per visible property, not each schema's contents. `BuildPropertySchema` fixes those contents.
- JsonSchema.ShortDoc: its contract states the shape of a title, not an inverse. `short_doc` is not idempotent: `a .` gives `a ` with a trailing space, whose own title is `a`.
- JsonSchema.EnumSchema: its contract states only that the result is an object. Its fields are stated by `EnumSchemaFields` and `EnumMetadataGet`.

## Findings

| source | as written | input that shows it | evidently intended | confidence | as-written member | corrected member |
|---|---|---|---|---|---|---|
| tools/schema-extractor/src/parser.rs:184-188 | `parse_annotations` stores each whole match, leading `@` included. Every lookup in types.rs:40-76 tests bare names or `PlatformSpecific(` / `ProductTypeSpecific(` prefixes, and the doc lookup at parser.rs:159-162 tests `SchemaDoc(`, so none of them ever matches | a property annotated `@HiddenFromCompletion` is stored as `@HiddenFromCompletion`, so `is_hidden` is false and the property is not hidden from the schema | two changes together: store each annotation name without its `@`, so that the set lookups for hidden, modifier-aware, shorthand, platform-specific and product-type-specific properties match; and read the doc from the `@`-ful match text (the first `@SchemaDoc(` in written order), because the pattern of `extract_doc_string` at parser.rs:220 needs the literal `@SchemaDoc`, so with bare names alone every documented property would get the empty doc (`NoDocWithoutAt`) | not executed | SchemaParser.AsWrittenLookupsNeverMatch | SchemaParser.HiddenMarkerFound |
