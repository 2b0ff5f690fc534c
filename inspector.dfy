/** The Inspector's graph utilities: cycle check over the collected
    dependency graph, the Mermaid text and the graph statistics. */
module Inspector {
  import opened Util
  import opened DependencyGraph
  import DependencyValidator

  datatype GraphNode = GraphNode(id: string)

  /** `Inspector.dependencyGraph`: the collected nodes and edges, either of
      which may be missing. */
  datatype DependencyData = DependencyData(nodes: Option<seq<GraphNode>>, edges: Option<seq<Edge>>)

  // ---------------------------------------------------------------------------
  // checkCycles.

  /** The `visited` / `stack` sets and `cycles` list of checkCycles' dfs,
      with the ghost log of expanded modules. */
  class CycleChecker {
    const graph: Graph
    ghost const universe: set<string> := Nodes(graph)
    var visited: set<string>
    var stack: set<string>
    var cycles: seq<seq<string>>
    ghost var expanded: seq<string>

    ghost predicate Valid()
      reads this
    {
      visited <= universe && stack <= visited &&
      (forall c :: c in cycles ==> ClosedWalk(graph, c)) &&
      Distinct(expanded) && DependencyValidator.Elems(expanded) == visited
    }

    constructor (graph: Graph)
      ensures Valid() && this.graph == graph
      ensures visited == {} && stack == {} && cycles == [] && expanded == []
    {
      this.graph := graph;
      visited := {};
      stack := {};
      cycles := [];
      expanded := [];
    }

    /** The back-edge case of dfs: the part of `path` from `node` on, closed
        by `node`, is recorded as a cycle. */
    method RecordCycle(node: string, path: seq<string>)
      requires Valid() && node in stack
      requires stack == DependencyValidator.Elems(path) && DependencyValidator.IsWalk(graph, path)
      requires |path| > 0 ==> IsEdge(graph, path[|path| - 1], node)
      modifies this
      ensures Valid() && visited == old(visited) && stack == old(stack) && expanded == old(expanded)
      ensures node in path
      ensures cycles == old(cycles) + [path[DependencyValidator.IndexOf(path, node)..] + [node]]
    {
      var cycleStart := DependencyValidator.IndexOf(path, node);
      if cycleStart != -1 {
        DependencyValidator.CycleFromPath(graph, path, node, cycleStart);
        DependencyValidator.CyclesAppend(graph, cycles, path[cycleStart..] + [node]);
        cycles := cycles + [path[cycleStart..] + [node]];
      }
    }

    /** dfs(node, path): `path` lists the modules on the stack, in order. */
    method Dfs(node: string, path: seq<string>)
      requires Valid() && node in universe
      requires stack == DependencyValidator.Elems(path) && DependencyValidator.IsWalk(graph, path)
      requires |path| > 0 ==> IsEdge(graph, path[|path| - 1], node)
      modifies this
      decreases |universe| - |visited|, 1
      ensures Valid() && stack == old(stack)
      ensures old(visited) <= visited && node in visited
      ensures old(expanded) <= expanded && old(cycles) <= cycles
    {
      if node in stack {
        RecordCycle(node, path);
        return;
      }
      if node in visited {
        return;
      }
      Mark(node);
      ghost var marked, recorded := expanded, cycles;
      assert old(expanded) <= marked;
      var newPath := path + [node];
      DependencyValidator.ElemsAppend(path, node);
      DependencyValidator.WalkExtend(graph, path, node);
      CardSubset(visited, universe);
      assert |universe| - |visited| + 1 == |universe| - |old(visited)|;
      VisitNeighbors(node, newPath);
      Unmark(node);
      PrefixTrans(old(expanded), marked, expanded);
      PrefixTrans(old(cycles), recorded, cycles);
    }

    /** Marks a fresh module visited and puts it on the stack. */
    method Mark(node: string)
      requires Valid() && node in universe && node !in visited
      modifies this
      ensures Valid() && cycles == old(cycles)
      ensures visited == old(visited) + {node} && |visited| == |old(visited)| + 1
      ensures stack == old(stack) + {node} && expanded == old(expanded) + [node]
    {
      DependencyValidator.ExpandOnce(expanded, visited, node);
      visited := visited + {node};
      stack := stack + {node};
      expanded := expanded + [node];
    }

    /** Takes a module off the stack once its neighbours are done. */
    method Unmark(node: string)
      requires Valid() && node in stack
      modifies this
      ensures Valid() && stack == old(stack) - {node}
      ensures visited == old(visited) && expanded == old(expanded) && cycles == old(cycles)
    {
      stack := stack - {node};
    }

    /** The loop over the neighbours of `node`, the last module of `path`. */
    method VisitNeighbors(node: string, path: seq<string>)
      requires Valid() && node in visited && |path| > 0 && path[|path| - 1] == node
      requires stack == DependencyValidator.Elems(path) && DependencyValidator.IsWalk(graph, path)
      modifies this
      decreases |universe| - |visited| + 1, 0
      ensures Valid() && stack == old(stack) && old(visited) <= visited
      ensures old(expanded) <= expanded && old(cycles) <= cycles
    {
      // `if (graph[node])`: a module with no outgoing edge has no neighbours.
      var neighbors := Neighbors(graph, node);
      for i := 0 to |neighbors|
        invariant Valid() && stack == DependencyValidator.Elems(path)
        invariant old(visited) <= visited
        invariant old(expanded) <= expanded && old(cycles) <= cycles
      {
        NeighborIsNode(graph, node, i);
        CardSubset(old(visited), visited);
        CardSubset(visited, universe);
        Dfs(neighbors[i], path);
      }
    }
  }

  /** checkCycles: no graph or no edges gives []; otherwise every reported
      cycle is a closed walk of the edges, none is reported for an acyclic
      graph, and no module is expanded twice. */
  method CheckCycles(data: Option<DependencyData>) returns (cycles: seq<seq<string>>, ghost expanded: seq<string>)
    ensures data.None? || data.value.edges.None? ==> cycles == []
    ensures data.Some? && data.value.edges.Some? ==>
              (forall c :: c in cycles ==> ClosedWalk(GraphOf(data.value.edges.value), c)) &&
              (Acyclic(GraphOf(data.value.edges.value)) ==> cycles == [])
    ensures Distinct(expanded)
  {
    if data.None? || data.value.edges.None? {
      return [], [];
    }
    var edges := data.value.edges.value;
    var graph := BuildGraph(edges);
    GraphOfSpec(edges);
    var checker := new CycleChecker(graph);
    for i := 0 to |graph.keys|
      invariant checker.Valid() && checker.stack == {} && checker.graph == graph
    {
      checker.Dfs(graph.keys[i], []);
    }
    cycles, expanded := checker.cycles, checker.expanded;
    if cycles != [] {
      assert cycles[0] in cycles;
    }
  }

  // ---------------------------------------------------------------------------
  // generateMermaidDiagram.

  predicate IsIdChar(c: char) {
    ('a' <= c <= 'z') || ('A' <= c <= 'Z') || ('0' <= c <= '9')
  }

  /** `s.replace(/[^a-zA-Z0-9]/g, '_')` */
  function Sanitize(s: string): (r: string)
    ensures |r| == |s|
    ensures forall i :: 0 <= i < |s| ==> r[i] == (if IsIdChar(s[i]) then s[i] else '_')
  {
    if s == [] then [] else Sanitize(s[..|s| - 1]) + [if IsIdChar(s[|s| - 1]) then s[|s| - 1] else '_']
  }

  /** Sanitised ids hold only letters, digits and '_', and sanitising twice
      changes nothing more. */
  lemma SanitizeSpec(s: string)
    ensures forall i :: 0 <= i < |s| ==> IsIdChar(Sanitize(s)[i]) || Sanitize(s)[i] == '_'
    ensures Sanitize(Sanitize(s)) == Sanitize(s)
  {
  }

  const Header := "graph TD\n"

  /** One `    from[from] --> to[to]` line, ids sanitised, labels verbatim. */
  function EdgeLine(e: Edge): string {
    "    " + Sanitize(e.from) + "[" + e.from + "] --> " + Sanitize(e.to) + "[" + e.to + "]\n"
  }

  /** One `    id[id]` line. */
  function NodeLine(n: GraphNode): string {
    "    " + Sanitize(n.id) + "[" + n.id + "]\n"
  }

  function EdgeLines(edges: seq<Edge>): (r: seq<string>)
    ensures |r| == |edges| && forall i :: 0 <= i < |edges| ==> r[i] == EdgeLine(edges[i])
  {
    seq(|edges|, i requires 0 <= i < |edges| => EdgeLine(edges[i]))
  }

  function NodeLines(nodes: seq<GraphNode>): (r: seq<string>)
    ensures |r| == |nodes| && forall i :: 0 <= i < |nodes| ==> r[i] == NodeLine(nodes[i])
  {
    seq(|nodes|, i requires 0 <= i < |nodes| => NodeLine(nodes[i]))
  }

  /** The lines of the diagram after the header: one per edge when there are
      edges, else one per node when the nodes are present, else none. */
  function Lines(g: DependencyData): seq<string> {
    if g.edges.Some? && |g.edges.value| > 0 then EdgeLines(g.edges.value)
    else if g.nodes.Some? then NodeLines(g.nodes.value)
    else []
  }

  function Concat(lines: seq<string>): string {
    if lines == [] then "" else Concat(lines[..|lines| - 1]) + lines[|lines| - 1]
  }

  /** Appending the next line to a text that ends with the first `i` lines. */
  lemma ConcatStep(text: string, lines: seq<string>, i: nat)
    requires i < |lines|
    ensures text + Concat(lines[..i + 1]) == text + Concat(lines[..i]) + lines[i]
  {
    assert lines[..i + 1][..i] == lines[..i];
    assert text + (Concat(lines[..i]) + lines[i]) == text + Concat(lines[..i]) + lines[i];
  }

  /** `edges.forEach(edge => { mermaid += ... })` */
  method AppendEdgeLines(mermaid0: string, edges: seq<Edge>) returns (mermaid: string)
    ensures mermaid == mermaid0 + Concat(EdgeLines(edges))
  {
    mermaid := mermaid0;
    ghost var lines := EdgeLines(edges);
    for i := 0 to |edges|
      invariant mermaid == mermaid0 + Concat(lines[..i])
    {
      ConcatStep(mermaid0, lines, i);
      var from := Sanitize(edges[i].from);
      var to := Sanitize(edges[i].to);
      var line := "    " + from + "[" + edges[i].from + "] --> " + to + "[" + edges[i].to + "]\n";
      assert line == lines[i];
      mermaid := mermaid + line;
    }
    assert lines[..|lines|] == lines;
  }

  /** `nodes.forEach(node => { mermaid += ... })` */
  method AppendNodeLines(mermaid0: string, nodes: seq<GraphNode>) returns (mermaid: string)
    ensures mermaid == mermaid0 + Concat(NodeLines(nodes))
  {
    mermaid := mermaid0;
    ghost var lines := NodeLines(nodes);
    for i := 0 to |nodes|
      invariant mermaid == mermaid0 + Concat(lines[..i])
    {
      ConcatStep(mermaid0, lines, i);
      var id := Sanitize(nodes[i].id);
      var line := "    " + id + "[" + nodes[i].id + "]\n";
      assert line == lines[i];
      mermaid := mermaid + line;
    }
    assert lines[..|lines|] == lines;
  }

  /** generateMermaidDiagram: the header, then a line appended per edge, or
      per node when there are no edges. */
  method GenerateMermaidDiagram(g: DependencyData) returns (mermaid: string)
    ensures mermaid == Header + Concat(Lines(g))
  {
    mermaid := Header;
    if g.edges.Some? && |g.edges.value| > 0 {
      mermaid := AppendEdgeLines(mermaid, g.edges.value);
    } else if g.nodes.Some? {
      mermaid := AppendNodeLines(mermaid, g.nodes.value);
    }
  }

  /** The diagram starts with "graph TD\n"; it has one line per edge when
      there are edges, otherwise one per node; each line is indented by four
      spaces and ends with a newline. */
  lemma MermaidSpec(g: DependencyData)
    ensures (Header + Concat(Lines(g)))[..|Header|] == Header
    ensures |Lines(g)| == if g.edges.Some? && |g.edges.value| > 0 then |g.edges.value|
                          else if g.nodes.Some? then |g.nodes.value| else 0
    ensures forall i :: 0 <= i < |Lines(g)| ==>
              |Lines(g)[i]| >= 5 && Lines(g)[i][..4] == "    " && Lines(g)[i][|Lines(g)[i]| - 1] == '\n'
  {
  }

  // ---------------------------------------------------------------------------
  // calculateGraphStats.

  datatype GraphStats = GraphStats(totalModules: nat, totalDependencies: nat)

  /** calculateGraphStats: the node and edge counts, 0 for a missing graph or field. */
  function CalculateGraphStats(data: Option<DependencyData>): (r: GraphStats)
    ensures data.None? ==> r == GraphStats(0, 0)
    ensures data.Some? ==> r.totalModules == (if data.value.nodes.Some? then |data.value.nodes.value| else 0)
    ensures data.Some? ==> r.totalDependencies == (if data.value.edges.Some? then |data.value.edges.value| else 0)
  {
    if data.None? then GraphStats(0, 0)
    else GraphStats(if data.value.nodes.Some? then |data.value.nodes.value| else 0,
                    if data.value.edges.Some? then |data.value.edges.value| else 0)
  }

  /** The statistics count what the diagram draws: one line per dependency,
      or one per module when there are no dependencies. */
  lemma GraphStatsMatchDiagram(g: DependencyData)
    ensures var st := CalculateGraphStats(Some(g));
            |Lines(g)| == if st.totalDependencies > 0 then st.totalDependencies else st.totalModules
    ensures CalculateGraphStats(None) == GraphStats(0, 0)
  {
    MermaidSpec(g);
  }
}
