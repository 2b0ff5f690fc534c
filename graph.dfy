/** The module dependency graph shared by the dependency validator and the
    inspector: an edge list, the adjacency object built from it, and walks. */
module DependencyGraph {

  datatype Edge = Edge(from: string, to: string)

  /** The adjacency object: its keys in insertion order and the list of
      targets under each key. */
  datatype Graph = Graph(keys: seq<string>, adj: map<string, seq<string>>)

  /** `graph[node] || []` */
  function Neighbors(g: Graph, node: string): seq<string> {
    if node in g.adj then g.adj[node] else []
  }

  predicate IsEdge(g: Graph, a: string, b: string) {
    b in Neighbors(g, a)
  }

  /** Every module the graph mentions, as a key or as a target. */
  function Nodes(g: Graph): set<string> {
    (set k | k in g.adj) + (set k, t | k in g.adj && t in g.adj[k] :: t)
  }

  predicate Distinct(s: seq<string>) {
    forall i, j :: 0 <= i < j < |s| ==> s[i] != s[j]
  }

  /** The targets of the edges leaving `k`, in edge order. */
  function TargetsOf(edges: seq<Edge>, k: string): seq<string> {
    if edges == [] then []
    else TargetsOf(edges[..|edges| - 1], k) + (if edges[|edges| - 1].from == k then [edges[|edges| - 1].to] else [])
  }

  /** The graph buildGraph returns for an edge list. */
  function GraphOf(edges: seq<Edge>): Graph {
    if edges == [] then Graph([], map[])
    else
      var g := GraphOf(edges[..|edges| - 1]);
      var e := edges[|edges| - 1];
      if e.from in g.adj then Graph(g.keys, g.adj[e.from := g.adj[e.from] + [e.to]])
      else Graph(g.keys + [e.from], g.adj[e.from := [e.to]])
  }

  /** buildGraph: the forEach creates a list on the first edge from a module
      and pushes every target onto it. */
  method BuildGraph(edges: seq<Edge>) returns (g: Graph)
    ensures g == GraphOf(edges)
  {
    var keys: seq<string> := [];
    var adj: map<string, seq<string>> := map[];
    for i := 0 to |edges|
      invariant Graph(keys, adj) == GraphOf(edges[..i])
    {
      assert edges[..i + 1][..i] == edges[..i];
      var edge := edges[i];
      assert edges[..i + 1][i] == edge;
      ghost var g0 := Graph(keys, adj);
      assert GraphOf(edges[..i + 1]) ==
        if edge.from in g0.adj then Graph(g0.keys, g0.adj[edge.from := g0.adj[edge.from] + [edge.to]])
        else Graph(g0.keys + [edge.from], g0.adj[edge.from := [edge.to]]);
      var list: seq<string> := [];
      if edge.from !in adj {
        keys := keys + [edge.from];
      } else {
        list := adj[edge.from];
      }
      assert list + [edge.to] == if edge.from in g0.adj then g0.adj[edge.from] + [edge.to] else [edge.to];
      adj := adj[edge.from := list + [edge.to]];
      assert Graph(keys, adj) == GraphOf(edges[..i + 1]);
    }
    assert edges[..|edges|] == edges;
    g := Graph(keys, adj);
  }

  /** The keys are the edge sources, each once, and each list holds that
      module's targets in edge order. */
  lemma GraphOfSpec(edges: seq<Edge>)
    ensures var g := GraphOf(edges);
            Distinct(g.keys) &&
            (forall k :: k in g.keys <==> k in g.adj) &&
            (forall k :: k in g.adj <==> exists e :: e in edges && e.from == k) &&
            (forall k :: k in g.adj ==> g.adj[k] == TargetsOf(edges, k))
  {
    GraphOfKeys(edges);
    GraphOfDomain(edges);
    GraphOfTargets(edges);
  }

  lemma {:induction false} GraphOfKeys(edges: seq<Edge>)
    ensures var g := GraphOf(edges);
            Distinct(g.keys) && forall k :: k in g.keys <==> k in g.adj
  {
    if edges != [] {
      GraphOfKeys(edges[..|edges| - 1]);
    }
  }

  lemma {:induction false} GraphOfDomain(edges: seq<Edge>)
    ensures forall k :: k in GraphOf(edges).adj <==> exists e :: e in edges && e.from == k
  {
    if edges != [] {
      var init := edges[..|edges| - 1];
      GraphOfDomain(init);
      var e := edges[|edges| - 1];
      var g := GraphOf(edges);
      forall k
        ensures k in g.adj <==> exists x :: x in edges && x.from == k
      {
        if k in g.adj && k != e.from {
          var x :| x in init && x.from == k;
          assert x in edges;
        }
        if exists x :: x in edges && x.from == k {
          var x :| x in edges && x.from == k;
          if x != e {
            assert x in init;
          }
        }
      }
    }
  }

  lemma {:induction false} GraphOfTargets(edges: seq<Edge>)
    ensures var g := GraphOf(edges);
            forall k :: k in g.adj ==> g.adj[k] == TargetsOf(edges, k)
  {
    if edges != [] {
      var init := edges[..|edges| - 1];
      GraphOfTargets(init);
      GraphOfDomain(init);
      var e := edges[|edges| - 1];
      var g := GraphOf(edges);
      forall k | k in g.adj
        ensures g.adj[k] == TargetsOf(edges, k)
      {
        if k != e.from {
          assert TargetsOf(edges, k) == TargetsOf(init, k);
        } else if k !in GraphOf(init).adj {
          assert TargetsOf(init, k) == [] by {
            TargetsAbsent(init, k);
          }
        }
      }
    }
  }

  /** A module with no outgoing edge has no targets. */
  lemma {:induction false} TargetsAbsent(edges: seq<Edge>, k: string)
    requires forall e :: e in edges ==> e.from != k
    ensures TargetsOf(edges, k) == []
  {
    if edges != [] {
      TargetsAbsent(edges[..|edges| - 1], k);
    }
  }

  /** The targets listed under `k` are exactly the `to` of the edges from `k`. */
  lemma {:induction false} TargetsOfSpec(edges: seq<Edge>, k: string)
    ensures forall t :: t in TargetsOf(edges, k) <==> Edge(k, t) in edges
  {
    if edges != [] {
      var init := edges[..|edges| - 1];
      TargetsOfSpec(init, k);
      assert edges == init + [edges[|edges| - 1]];
    }
  }

  /** Hence an adjacency of the built graph is exactly an edge of the list. */
  lemma GraphOfEdges(edges: seq<Edge>, a: string, b: string)
    ensures IsEdge(GraphOf(edges), a, b) <==> Edge(a, b) in edges
  {
    GraphOfSpec(edges);
    TargetsOfSpec(edges, a);
    if Edge(a, b) in edges {
      assert Edge(a, b).from == a;
    }
  }

  /** A walk of at least one edge that returns to its start. */
  predicate ClosedWalk(g: Graph, c: seq<string>) {
    |c| >= 2 && c[0] == c[|c| - 1] && forall k :: 0 <= k < |c| - 1 ==> IsEdge(g, c[k], c[k + 1])
  }

  ghost predicate Acyclic(g: Graph) {
    forall c :: !ClosedWalk(g, c)
  }

  /** `set.size` can only grow along inclusion. */
  lemma {:induction false} CardSubset(a: set<string>, b: set<string>)
    requires a <= b
    ensures |a| <= |b|
    decreases a
  {
    if a != {} {
      var x :| x in a;
      CardSubset(a - {x}, b - {x});
    }
  }

  /** Each neighbour of a module is a module of the graph. */
  lemma NeighborIsNode(g: Graph, node: string, i: nat)
    requires i < |Neighbors(g, node)|
    ensures Neighbors(g, node)[i] in Nodes(g)
  {
    assert node in g.adj && Neighbors(g, node)[i] in g.adj[node];
  }

  /** Being a prefix is transitive. */
  lemma PrefixTrans<T>(a: seq<T>, b: seq<T>, c: seq<T>)
    requires a <= b && b <= c
    ensures a <= c
  {
    assert forall i :: 0 <= i < |a| ==> a[i] == b[i] == c[i];
  }
}
