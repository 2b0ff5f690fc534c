/** dependencyValidator: cycle search over the module graph, layer rules and
    orphan modules. The dependency map, the layer table and the registry are
    inputs; in the page they are read from window globals or localStorage. */
module DependencyValidator {
  import opened Util
  import opened DependencyGraph
  import Tree

  function Elems(s: seq<string>): set<string> {
    set x | x in s
  }

  /** Consecutive modules of `path` are joined by edges. */
  predicate IsWalk(g: Graph, path: seq<string>) {
    forall k :: 0 <= k < |path| - 1 ==> IsEdge(g, path[k], path[k + 1])
  }

  /** `path.indexOf(x)` */
  function IndexOf(s: seq<string>, x: string): (r: int)
    ensures -1 <= r < |s|
    ensures r >= 0 ==> s[r] == x && forall j :: 0 <= j < r ==> s[j] != x
    ensures r == -1 <==> x !in s
  {
    if s == [] then -1
    else if s[0] == x then 0
    else
      var r := IndexOf(s[1..], x);
      if r == -1 then -1 else r + 1
  }

  /** The tail of a walk from an occurrence of `node`, closed by an edge back
      to `node`, is a closed walk. */
  lemma CycleFromPath(g: Graph, path: seq<string>, node: string, k: nat)
    requires IsWalk(g, path) && k < |path| && path[k] == node
    requires IsEdge(g, path[|path| - 1], node)
    ensures ClosedWalk(g, path[k..] + [node])
  {
    var c := path[k..] + [node];
    forall j | 0 <= j < |c| - 1
      ensures IsEdge(g, c[j], c[j + 1])
    {
      if j < |c| - 2 {
        assert c[j] == path[k + j] && c[j + 1] == path[k + j + 1];
      } else {
        assert c[j] == path[|path| - 1];
      }
    }
  }

  /** A walk extended by an edge from its last module is a walk. */
  lemma WalkExtend(g: Graph, path: seq<string>, node: string)
    requires IsWalk(g, path) && (|path| > 0 ==> IsEdge(g, path[|path| - 1], node))
    ensures IsWalk(g, path + [node])
  {
    var p := path + [node];
    forall k | 0 <= k < |p| - 1
      ensures IsEdge(g, p[k], p[k + 1])
    {
      if k < |path| - 1 {
        assert p[k] == path[k] && p[k + 1] == path[k + 1];
      }
    }
  }

  lemma ElemsAppend(s: seq<string>, x: string)
    ensures Elems(s + [x]) == Elems(s) + {x}
  {
  }

  lemma ExpandOnce(expanded: seq<string>, visited: set<string>, node: string)
    requires Distinct(expanded) && Elems(expanded) == visited && node !in visited
    ensures Distinct(expanded + [node]) && Elems(expanded + [node]) == visited + {node}
  {
    ElemsAppend(expanded, node);
  }

  lemma CyclesAppend(g: Graph, cycles: seq<seq<string>>, c: seq<string>)
    requires forall x :: x in cycles ==> ClosedWalk(g, x)
    requires ClosedWalk(g, c)
    ensures forall x :: x in cycles + [c] ==> ClosedWalk(g, x)
  {
  }

  /** The state findCycles' `dfs` closure shares: the `visited` and
      `recStack` sets and the `cycles` list, plus the ghost log of the
      modules the search has expanded. */
  class CycleFinder {
    const graph: Graph
    ghost const universe: set<string> := Nodes(graph)
    var visited: set<string>
    var recStack: set<string>
    var cycles: seq<seq<string>>
    ghost var expanded: seq<string>

    /** Every recorded cycle is a closed walk, the stack lies within the
        visited modules, and each visited module was expanded exactly once. */
    ghost predicate Valid()
      reads this
    {
      visited <= universe && recStack <= visited &&
      (forall c :: c in cycles ==> ClosedWalk(graph, c)) &&
      Distinct(expanded) && Elems(expanded) == visited
    }

    constructor (graph: Graph)
      ensures Valid() && this.graph == graph
      ensures visited == {} && recStack == {} && cycles == [] && expanded == []
    {
      this.graph := graph;
      visited := {};
      recStack := {};
      cycles := [];
      expanded := [];
    }

    /** The back-edge case of dfs: the part of `path` from `node` on, closed
        by `node`, is recorded as a cycle. */
    method RecordCycle(node: string, path: seq<string>)
      requires Valid() && node in recStack
      requires recStack == Elems(path) && IsWalk(graph, path)
      requires |path| > 0 ==> IsEdge(graph, path[|path| - 1], node)
      modifies this
      ensures Valid() && visited == old(visited) && recStack == old(recStack) && expanded == old(expanded)
      ensures node in path && cycles == old(cycles) + [path[IndexOf(path, node)..] + [node]]
    {
      var cycleStart := IndexOf(path, node);
      CycleFromPath(graph, path, node, cycleStart);
      CyclesAppend(graph, cycles, path[cycleStart..] + [node]);
      cycles := cycles + [path[cycleStart..] + [node]];
    }

    /** dfs(node, path): `path` is the stack of modules being expanded, each
        an edge away from the previous one and from the last to `node`. */
    method Dfs(node: string, path: seq<string>)
      requires Valid() && node in universe
      requires recStack == Elems(path) && IsWalk(graph, path)
      requires |path| > 0 ==> IsEdge(graph, path[|path| - 1], node)
      modifies this
      decreases |universe| - |visited|, 1
      ensures Valid() && recStack == old(recStack)
      ensures old(visited) <= visited && node in visited
      ensures old(expanded) <= expanded && old(cycles) <= cycles
    {
      if node in recStack {
        RecordCycle(node, path);
        return;
      }
      if node in visited {
        return;
      }
      Mark(node);
      ghost var marked, recorded := expanded, cycles;
      assert old(expanded) <= marked;
      var newPath := path + [node];
      ElemsAppend(path, node);
      WalkExtend(graph, path, node);
      CardSubset(visited, universe);
      assert |universe| - |visited| + 1 == |universe| - |old(visited)|;
      VisitNeighbors(node, newPath);
      Unmark(node);
      PrefixTrans(old(expanded), marked, expanded);
      PrefixTrans(old(cycles), recorded, cycles);
    }

    /** Marks a fresh module visited and puts it on the stack. */
    method Mark(node: string)
      requires Valid() && node in universe && node !in visited
      modifies this
      ensures Valid() && cycles == old(cycles)
      ensures visited == old(visited) + {node} && |visited| == |old(visited)| + 1
      ensures recStack == old(recStack) + {node} && expanded == old(expanded) + [node]
    {
      ExpandOnce(expanded, visited, node);
      visited := visited + {node};
      recStack := recStack + {node};
      expanded := expanded + [node];
    }

    /** Takes a module off the stack once its neighbours are done. */
    method Unmark(node: string)
      requires Valid() && node in recStack
      modifies this
      ensures Valid() && recStack == old(recStack) - {node}
      ensures visited == old(visited) && expanded == old(expanded) && cycles == old(cycles)
    {
      recStack := recStack - {node};
    }

    /** The loop over the neighbours of `node`, the last module of `path`. */
    method VisitNeighbors(node: string, path: seq<string>)
      requires Valid() && node in visited && |path| > 0 && path[|path| - 1] == node
      requires recStack == Elems(path) && IsWalk(graph, path)
      modifies this
      decreases |universe| - |visited| + 1, 0
      ensures Valid() && recStack == old(recStack) && old(visited) <= visited
      ensures old(expanded) <= expanded && old(cycles) <= cycles
    {
      var neighbors := Neighbors(graph, node);
      for i := 0 to |neighbors|
        invariant Valid() && recStack == Elems(path)
        invariant old(visited) <= visited
        invariant old(expanded) <= expanded && old(cycles) <= cycles
      {
        NeighborIsNode(graph, node, i);
        CardSubset(old(visited), visited);
        CardSubset(visited, universe);
        Dfs(neighbors[i], path);
      }
    }
  }

  /** findCycles: dfs from every key of the graph not yet visited. Every
      reported cycle is a closed walk of the graph, so an acyclic graph yields
      none; every key ends up visited and no module is expanded twice. */
  method FindCycles(edges: seq<Edge>) returns (cycles: seq<seq<string>>, ghost expanded: seq<string>)
    ensures forall c :: c in cycles ==> ClosedWalk(GraphOf(edges), c)
    ensures Acyclic(GraphOf(edges)) ==> cycles == []
    ensures Distinct(expanded) && forall k :: k in GraphOf(edges).keys ==> k in expanded
  {
    var graph := BuildGraph(edges);
    KeysAreNodes(edges);
    var finder := new CycleFinder(graph);
    for i := 0 to |graph.keys|
      invariant finder.Valid() && finder.recStack == {} && finder.graph == graph
      invariant Elems(graph.keys[..i]) <= finder.visited
    {
      var node := graph.keys[i];
      assert node in Nodes(graph);
      if node !in finder.visited {
        finder.Dfs(node, []);
      }
      assert graph.keys[..i + 1] == graph.keys[..i] + [node];
      ElemsAppend(graph.keys[..i], node);
    }
    assert graph.keys[..|graph.keys|] == graph.keys;
    cycles, expanded := finder.cycles, finder.expanded;
    SearchOutcome(graph, cycles, expanded);
  }

  /** Every key of the graph is one of its modules. */
  lemma KeysAreNodes(edges: seq<Edge>)
    ensures forall k :: k in GraphOf(edges).keys ==> k in Nodes(GraphOf(edges))
  {
    GraphOfSpec(edges);
  }

  /** What the search state says once every key has been searched from. */
  lemma SearchOutcome(g: Graph, cycles: seq<seq<string>>, expanded: seq<string>)
    requires forall c :: c in cycles ==> ClosedWalk(g, c)
    requires Elems(g.keys) <= Elems(expanded)
    ensures Acyclic(g) ==> cycles == []
    ensures forall k :: k in g.keys ==> k in expanded
  {
    forall k | k in g.keys
      ensures k in expanded
    {
      assert k in Elems(g.keys);
    }
    if cycles != [] {
      assert cycles[0] in cycles;
    }
  }

  // ---------------------------------------------------------------------------
  // Layers.

  datatype Layer = Layer(modules: seq<string>, canDependOn: Option<seq<string>>)

  /** `Object.entries(layers.layers)`: layer ids with their layers, in order. */
  type LayerTable = seq<(string, Layer)>

  /** getModuleLayer: the id of the first layer listing the module. */
  function ModuleLayer(moduleId: string, layers: LayerTable): (r: Option<string>)
    ensures r.Some? ==> exists j :: 0 <= j < |layers| && layers[j].0 == r.value && moduleId in layers[j].1.modules &&
                                    forall i :: 0 <= i < j ==> moduleId !in layers[i].1.modules
    ensures r.None? <==> forall j :: 0 <= j < |layers| ==> moduleId !in layers[j].1.modules
  {
    if layers == [] then None
    else if moduleId in layers[0].1.modules then Some(layers[0].0)
    else
      var r := ModuleLayer(moduleId, layers[1..]);
      if r.Some? then
        FirstListingShift(moduleId, layers, r.value);
        r
      else r
  }

  /** A first listing layer of the tail is a first listing layer of the whole
      table when the head does not list the module. */
  lemma FirstListingShift(moduleId: string, layers: LayerTable, id: string)
    requires layers != [] && moduleId !in layers[0].1.modules
    requires exists j :: 0 <= j < |layers[1..]| && layers[1..][j].0 == id && moduleId in layers[1..][j].1.modules &&
                         forall i :: 0 <= i < j ==> moduleId !in layers[1..][i].1.modules
    ensures exists j :: 0 <= j < |layers| && layers[j].0 == id && moduleId in layers[j].1.modules &&
                        forall i :: 0 <= i < j ==> moduleId !in layers[i].1.modules
  {
    var j :| 0 <= j < |layers[1..]| && layers[1..][j].0 == id && moduleId in layers[1..][j].1.modules &&
             forall i :: 0 <= i < j ==> moduleId !in layers[1..][i].1.modules;
    assert layers[j + 1] == layers[1..][j];
    assert forall i :: 1 <= i < j + 1 ==> layers[i] == layers[1..][i - 1];
  }

  /** getModuleLayer: the for-of loop returns at the first layer listing the module. */
  method GetModuleLayer(moduleId: string, layers: LayerTable) returns (r: Option<string>)
    ensures r == ModuleLayer(moduleId, layers)
  {
    for j := 0 to |layers|
      invariant ModuleLayer(moduleId, layers) == ModuleLayer(moduleId, layers[j..])
    {
      assert layers[j..][1..] == layers[j + 1..];
      if moduleId in layers[j].1.modules {
        return Some(layers[j].0);
      }
    }
    assert layers[|layers|..] == [];
    return None;
  }

  /** `layers.layers[layerId].canDependOn || []` */
  function Allowed(layers: LayerTable, layerId: string): seq<string> {
    if layers == [] then []
    else if layers[0].0 == layerId then layers[0].1.canDependOn.GetOr([])
    else Allowed(layers[1..], layerId)
  }

  datatype Violation = Violation(from: string, to: string, fromLayer: string, toLayer: string)

  /** The violation an edge reports, if any. */
  function ViolationOf(edge: Edge, layers: LayerTable): Option<Violation> {
    var fromLayer := ModuleLayer(edge.from, layers);
    var toLayer := ModuleLayer(edge.to, layers);
    if !Tree.Truthy(fromLayer) || !Tree.Truthy(toLayer) then None
    else if toLayer.value !in Allowed(layers, fromLayer.value) && fromLayer.value != toLayer.value then
      Some(Violation(edge.from, edge.to, fromLayer.value, toLayer.value))
    else None
  }

  function Violations(edges: seq<Edge>, layers: LayerTable): seq<Violation> {
    if edges == [] then []
    else
      var v := ViolationOf(edges[|edges| - 1], layers);
      Violations(edges[..|edges| - 1], layers) + (if v.Some? then [v.value] else [])
  }

  /** checkLayerViolations */
  method CheckLayerViolations(edges: seq<Edge>, layers: LayerTable) returns (violations: seq<Violation>)
    ensures violations == Violations(edges, layers)
  {
    violations := [];
    for i := 0 to |edges|
      invariant violations == Violations(edges[..i], layers)
    {
      assert edges[..i + 1][..i] == edges[..i];
      var edge := edges[i];
      var fromLayer := GetModuleLayer(edge.from, layers);
      var toLayer := GetModuleLayer(edge.to, layers);
      if !Tree.Truthy(fromLayer) || !Tree.Truthy(toLayer) {
        continue;
      }
      var allowed := Allowed(layers, fromLayer.value);
      if toLayer.value !in allowed && fromLayer.value != toLayer.value {
        violations := violations + [Violation(edge.from, edge.to, fromLayer.value, toLayer.value)];
      }
    }
    assert edges[..|edges|] == edges;
  }

  /** An edge is reported exactly when both ends have a (non-empty) layer
      id, the ids differ and the target's layer is not in the source layer's
      `canDependOn`; reports come in edge order, one per offending edge. */
  lemma {:induction false} ViolationsSpec(edges: seq<Edge>, layers: LayerTable)
    ensures var vs := Violations(edges, layers);
            |vs| <= |edges| &&
            forall v :: v in vs <==>
              exists e :: e in edges && e.from == v.from && e.to == v.to &&
                          ModuleLayer(e.from, layers) == Some(v.fromLayer) && v.fromLayer != "" &&
                          ModuleLayer(e.to, layers) == Some(v.toLayer) && v.toLayer != "" &&
                          v.fromLayer != v.toLayer && v.toLayer !in Allowed(layers, v.fromLayer)
  {
    if edges != [] {
      var init := edges[..|edges| - 1];
      var last := edges[|edges| - 1];
      ViolationsSpec(init, layers);
      assert edges == init + [last];
    }
  }

  // ---------------------------------------------------------------------------
  // Orphans.

  const InspectorModule := "MODULE_Inspector_VER_1.0"

  /** Some edge leaves `id` (`edges.some(e => e.from === id)`). */
  predicate HasDeps(edges: seq<Edge>, id: string) {
    exists e :: e in edges && e.from == id
  }

  /** Some edge enters `id`. */
  predicate IsDependent(edges: seq<Edge>, id: string) {
    exists e :: e in edges && e.to == id
  }

  function Orphans(moduleIds: seq<string>, edges: seq<Edge>): seq<string> {
    if moduleIds == [] then []
    else
      var id := moduleIds[|moduleIds| - 1];
      Orphans(moduleIds[..|moduleIds| - 1], edges) +
      (if !HasDeps(edges, id) && !IsDependent(edges, id) && id != InspectorModule then [id] else [])
  }

  /** findOrphanModules over `Object.keys(registry.modules)`. */
  method FindOrphanModules(moduleIds: seq<string>, edges: seq<Edge>) returns (orphans: seq<string>)
    ensures orphans == Orphans(moduleIds, edges)
  {
    orphans := [];
    for i := 0 to |moduleIds|
      invariant orphans == Orphans(moduleIds[..i], edges)
    {
      assert moduleIds[..i + 1][..i] == moduleIds[..i];
      var moduleId := moduleIds[i];
      var hasDeps := HasDeps(edges, moduleId);
      var isDependent := IsDependent(edges, moduleId);
      if !hasDeps && !isDependent && moduleId != InspectorModule {
        orphans := orphans + [moduleId];
      }
    }
    assert moduleIds[..|moduleIds|] == moduleIds;
  }

  /** A registered module is an orphan exactly when no edge touches it and it
      is not the inspector; orphans keep registry order. */
  lemma {:induction false} OrphansSpec(moduleIds: seq<string>, edges: seq<Edge>)
    ensures forall id :: id in Orphans(moduleIds, edges) <==>
              id in moduleIds && id != InspectorModule &&
              forall e :: e in edges ==> e.from != id && e.to != id
  {
    if moduleIds != [] {
      var init := moduleIds[..|moduleIds| - 1];
      OrphansSpec(init, edges);
      assert moduleIds == init + [moduleIds[|moduleIds| - 1]];
    }
  }

  // ---------------------------------------------------------------------------
  // validate.

  datatype ValidationResult = ValidationResult(
    valid: bool,
    cycles: seq<seq<string>>,
    layerViolations: seq<Violation>,
    orphanModules: seq<string>)

  /** validate: valid exactly when there are no cycles and no layer
      violations; orphans are reported but do not count. The timestamp is
      not modelled. */
  method Validate(moduleIds: seq<string>, edges: seq<Edge>, layers: LayerTable) returns (r: ValidationResult)
    ensures forall c :: c in r.cycles ==> ClosedWalk(GraphOf(edges), c)
    ensures r.layerViolations == Violations(edges, layers)
    ensures r.orphanModules == Orphans(moduleIds, edges)
    ensures r.valid <==> r.cycles == [] && Violations(edges, layers) == []
    ensures Acyclic(GraphOf(edges)) ==> (r.valid <==> Violations(edges, layers) == [])
  {
    var cycles, _ := FindCycles(edges);
    var layerViolations := CheckLayerViolations(edges, layers);
    var orphanModules := FindOrphanModules(moduleIds, edges);
    r := ValidationResult(|cycles| == 0 && |layerViolations| == 0, cycles, layerViolations, orphanModules);
  }
}
