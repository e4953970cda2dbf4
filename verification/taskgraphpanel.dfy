/** The Mermaid text the task-graph panel draws: one node line per node, one
    `from --> to` line per edge and one click line per node, with every id made safe
    for Mermaid by replacing each character outside `[a-zA-Z0-9]` with `_`. */
module TaskGraphPanel {
  import opened Text
  import opened Seqs
  import opened TaskGraphService

  predicate IsAsciiAlnum(c: char) { IsAsciiLetter(c) || IsDigit(c) }

  /** `safeId`: ASCII letters and digits stay where they are, everything else
      becomes `_`. */
  function SafeId(id: string): (r: string)
    ensures |r| == |id|
    ensures All(r, IsWordChar)
    ensures forall i :: 0 <= i < |id| && IsAsciiAlnum(id[i]) ==> r[i] == id[i]
    ensures forall i :: 0 <= i < |id| && !IsAsciiAlnum(id[i]) ==> r[i] == '_'
  {
    seq(|id|, i requires 0 <= i < |id| => if IsAsciiAlnum(id[i]) then id[i] else '_')
  }

  /** Making an id safe twice changes nothing the first pass did not. */
  lemma SafeIdIdempotent(id: string)
    ensures SafeId(SafeId(id)) == SafeId(id)
  {
  }

  /** The ids `safeId` leaves alone are exactly those already made of `[A-Za-z0-9_]`. */
  lemma SafeIdFixedPoints(id: string)
    ensures SafeId(id) == id <==> All(id, IsWordChar)
  {
    if All(id, IsWordChar) {
      assert forall i :: 0 <= i < |id| ==> SafeId(id)[i] == id[i];
    }
  }

  /** Distinct task ids can share a Mermaid id: a colon and an underscore both
      become `_`. */
  lemma SafeIdCollides()
    ensures ":a" != "_a" && SafeId(":a") == SafeId("_a")
  {
    assert SafeId(":a") == "_a";
    assert SafeId("_a") == "_a";
  }

  // ---------------------------------------------------------------------------
  // The three blocks of the definition
  // ---------------------------------------------------------------------------

  function NodeLine(n: TaskNode): string {
    SafeId(n.id) + "[\"" + n.name + "\"]"
  }

  function EdgeLine(e: TaskEdge): string {
    SafeId(e.from) + " --> " + SafeId(e.to)
  }

  function ClickLine(n: TaskNode): string {
    "click " + SafeId(n.id) + " callTask(\"" + n.id + "\")"
  }

  /** The node, edge and click blocks, each its lines joined with a newline. */
  datatype MermaidBlocks = MermaidBlocks(nodesDef: string, edgesDef: string, clickDef: string)

  function Blocks(g: TaskGraph): MermaidBlocks {
    MermaidBlocks(
      Join(Map(NodeLine, g.nodes), "\n"),
      Join(Map(EdgeLine, g.edges), "\n"),
      Join(Map(ClickLine, g.nodes), "\n"))
  }

  /** The Mermaid ids of the drawn nodes, in node order. */
  function DrawnIds(nodes: seq<TaskNode>): seq<string> {
    Map((n: TaskNode) => SafeId(n.id), nodes)
  }

  // ---------------------------------------------------------------------------
  // One line per item
  // ---------------------------------------------------------------------------

  lemma WordsSingleLine(s: string)
    requires All(s, IsWordChar)
    ensures All(s, NotLineTerminator)
  {
  }

  lemma ConcatSingleLine(a: string, b: string)
    requires All(a, NotLineTerminator) && All(b, NotLineTerminator)
    ensures All(a + b, NotLineTerminator)
  {
    forall k | 0 <= k < |a + b|
      ensures NotLineTerminator((a + b)[k])
    {
      if k >= |a| {
        assert (a + b)[k] == b[k - |a|];
      }
    }
  }

  /** A block whose lines stay on one line splits back into those lines. */
  lemma {:induction false} BlockLines(lines: seq<string>)
    requires |lines| > 0
    requires forall i :: 0 <= i < |lines| ==> All(lines[i], NotLineTerminator)
    ensures Split(Join(lines, "\n"), '\n') == lines
  {
    forall i | 0 <= i < |lines|
      ensures '\n' !in lines[i]
    {
      AllExcludes(lines[i], NotLineTerminator, '\n');
    }
    SplitJoin(lines, '\n');
  }

  lemma EdgeLineSingle(e: TaskEdge)
    ensures All(EdgeLine(e), NotLineTerminator)
  {
    WordsSingleLine(SafeId(e.from));
    WordsSingleLine(SafeId(e.to));
    ConcatSingleLine(SafeId(e.from), " --> ");
    ConcatSingleLine(SafeId(e.from) + " --> ", SafeId(e.to));
  }

  lemma NodeLineSingle(n: TaskNode)
    requires All(n.name, NotLineTerminator)
    ensures All(NodeLine(n), NotLineTerminator)
  {
    var a := SafeId(n.id);
    WordsSingleLine(a);
    ConcatSingleLine(a, "[\"");
    ConcatSingleLine(a + "[\"", n.name);
    ConcatSingleLine(a + "[\"" + n.name, "\"]");
  }

  lemma ClickLineSingle(n: TaskNode)
    requires All(n.id, NotLineTerminator)
    ensures All(ClickLine(n), NotLineTerminator)
  {
    var a := SafeId(n.id);
    WordsSingleLine(a);
    ConcatSingleLine("click ", a);
    ConcatSingleLine("click " + a, " callTask(\"");
    ConcatSingleLine("click " + a + " callTask(\"", n.id);
    ConcatSingleLine("click " + a + " callTask(\"" + n.id, "\")");
  }

  /** Every edge is one line of the edge block, in edge order, whatever the ids hold. */
  lemma EdgeBlockLines(g: TaskGraph)
    requires |g.edges| > 0
    ensures Split(Blocks(g).edgesDef, '\n') == Map(EdgeLine, g.edges)
  {
    var lines := Map(EdgeLine, g.edges);
    forall i | 0 <= i < |lines|
      ensures All(lines[i], NotLineTerminator)
    {
      EdgeLineSingle(g.edges[i]);
    }
    BlockLines(lines);
  }

  /** For a parsed graph, every node is one line of the node block and one line of
      the click block, in node order. */
  lemma ParsedNodeBlockLines(output: string, rootPath: string)
    requires |ParseTaskOutput(output, rootPath).nodes| > 0
    ensures var g := ParseTaskOutput(output, rootPath);
      && Split(Blocks(g).nodesDef, '\n') == Map(NodeLine, g.nodes)
      && Split(Blocks(g).clickDef, '\n') == Map(ClickLine, g.nodes)
  {
    var g := ParseTaskOutput(output, rootPath);
    ParsedIdsSingleLine(output, rootPath);
    ParsedNodes(output, rootPath);
    var nodeLines, clickLines := Map(NodeLine, g.nodes), Map(ClickLine, g.nodes);
    forall i | 0 <= i < |g.nodes|
      ensures All(nodeLines[i], NotLineTerminator) && All(clickLines[i], NotLineTerminator)
    {
      assert g.nodes[i].name == g.nodes[i].id;
      NodeLineSingle(g.nodes[i]);
      ClickLineSingle(g.nodes[i]);
    }
    BlockLines(nodeLines);
    BlockLines(clickLines);
  }

  /** A node's id is drawn under its Mermaid id. */
  lemma DrawnId(nodes: seq<TaskNode>, id: string)
    requires id in Ids(nodes)
    ensures SafeId(id) in DrawnIds(nodes)
  {
    var j :| 0 <= j < |nodes| && Ids(nodes)[j] == id;
    assert DrawnIds(nodes)[j] == SafeId(id);
  }

  /** No edge of a parsed graph dangles in the drawing: both of its Mermaid ids are
      the Mermaid id of a drawn node. */
  lemma ParsedEdgesDrawn(output: string, rootPath: string)
    ensures var g := ParseTaskOutput(output, rootPath);
      forall i :: 0 <= i < |g.edges| ==>
        SafeId(g.edges[i].from) in DrawnIds(g.nodes) && SafeId(g.edges[i].to) in DrawnIds(g.nodes)
  {
    var g := ParseTaskOutput(output, rootPath);
    ParsedEdgesClosed(output, rootPath);
    forall i | 0 <= i < |g.edges|
      ensures SafeId(g.edges[i].from) in DrawnIds(g.nodes) && SafeId(g.edges[i].to) in DrawnIds(g.nodes)
    {
      DrawnId(g.nodes, g.edges[i].from);
      DrawnId(g.nodes, g.edges[i].to);
    }
  }
}
