/** knowledgeManager: the pre-order searches over the document, the id
    assignment they perform on the way, the link toggle and the field
    initialisation of openKnowledgeBase. */
module Knowledge {
  import opened Util
  import opened Tree

  // ---------------------------------------------------------------------------
  // Pre-order.

  /** One visited node with the parent path and the index it sits at. */
  datatype Entry = Entry(path: seq<nat>, index: nat, node: Node)

  /** The order in which the recursive searches visit the nodes of `nodes`
      (found at `path`): each node, then, when it has `children`, its subtree. */
  function PreOrder(nodes: seq<Node>, path: seq<nat>): seq<Entry>
    decreases nodes
  {
    if nodes == [] then []
    else
      var i := |nodes| - 1;
      PreOrder(nodes[..i], path) + [Entry(path, i, nodes[i])] + Below(nodes[i], path + [i])
  }

  /** The entries of one node's subtree. */
  function Below(node: Node, path: seq<nat>): seq<Entry>
    decreases node, 0
  {
    if node.children.Present? then PreOrder(node.children.nodes, path) else []
  }

  lemma PreOrderStep(nodes: seq<Node>, path: seq<nat>, i: nat)
    requires i < |nodes|
    ensures PreOrder(nodes[..i + 1], path) == PreOrder(nodes[..i], path) + [Entry(path, i, nodes[i])] + Below(nodes[i], path + [i])
  {
    assert nodes[..i + 1][..i] == nodes[..i];
  }

  /** The entries of a prefix of the siblings come first. */
  lemma {:induction false} PreOrderPrefix(nodes: seq<Node>, path: seq<nat>, k: nat)
    requires k <= |nodes|
    ensures PreOrder(nodes[..k], path) <= PreOrder(nodes, path)
    decreases |nodes| - k
  {
    if k < |nodes| {
      PreOrderPrefix(nodes, path, k + 1);
      PreOrderStep(nodes, path, k);
    } else {
      assert nodes[..k] == nodes;
    }
  }

  /** Every visited entry names a node that getNodeByPath(path)[index] reaches. */
  lemma PreOrderLocates(roots: seq<Node>, nodes: seq<Node>, path: seq<nat>)
    requires Resolve(roots, path) == Found(nodes, true)
    ensures forall e :: e in PreOrder(nodes, path) ==> NodeAt(roots, e.path, e.index) == Some(e.node)
    decreases nodes, 2
  {
    PreOrderPrefixLocates(roots, nodes, path, |nodes|);
    assert nodes[..|nodes|] == nodes;
  }

  /** The entries of a prefix of an attached array are located like those of the array. */
  lemma {:induction false} PreOrderPrefixLocates(roots: seq<Node>, nodes: seq<Node>, path: seq<nat>, k: nat)
    requires Resolve(roots, path) == Found(nodes, true) && k <= |nodes|
    ensures forall e :: e in PreOrder(nodes[..k], path) ==> NodeAt(roots, e.path, e.index) == Some(e.node)
    decreases nodes, 1, k
  {
    if k > 0 {
      PreOrderPrefixLocates(roots, nodes, path, k - 1);
      PreOrderStep(nodes, path, k - 1);
      var n := nodes[k - 1];
      if n.children.Present? {
        ResolveThroughParent(roots, path, k - 1);
        PreOrderLocates(roots, n.children.nodes, path + [k - 1]);
      }
    }
  }

  /** A node, and every entry of its subtree, is visited. */
  lemma PreOrderVisits(nodes: seq<Node>, path: seq<nat>, k: nat)
    requires k < |nodes|
    ensures Entry(path, k, nodes[k]) in PreOrder(nodes, path)
    ensures forall e :: e in Below(nodes[k], path + [k]) ==> e in PreOrder(nodes, path)
  {
    PreOrderPrefix(nodes, path, k + 1);
    PreOrderStep(nodes, path, k);
    var visited := PreOrder(nodes[..k + 1], path);
    forall e | e in visited
      ensures e in PreOrder(nodes, path)
    {
      InPrefix(visited, PreOrder(nodes, path), e);
    }
  }

  lemma InPrefix<T>(a: seq<T>, b: seq<T>, x: T)
    requires a <= b && x in a
    ensures x in b
  {
    var j :| 0 <= j < |a| && a[j] == x;
    assert b[j] == x;
  }

  /** Every node of an attached array below `nodes` is visited, with the
      path and index that locate it. */
  lemma {:induction false} PreOrderReaches(nodes: seq<Node>, path: seq<nat>, q: seq<int>, i: int)
    requires Attached(nodes, q) && 0 <= i < |Resolve(nodes, q).siblings|
    ensures exists e :: e in PreOrder(nodes, path) && e.path == path + q && e.index == i &&
                        e.node == Resolve(nodes, q).siblings[i]
    decreases q
  {
    if q == [] {
      PreOrderVisits(nodes, path, i);
      assert path + q == path;
    } else {
      AttachedStep(nodes, q);
      var k: nat := q[0];
      var n := nodes[k];
      assert Resolve(nodes, q) == Resolve(n.children.nodes, q[1..]);
      PreOrderReaches(n.children.nodes, path + [k], q[1..], i);
      var e :| e in PreOrder(n.children.nodes, path + [k]) && e.path == path + [k] + q[1..] && e.index == i &&
               e.node == Resolve(nodes, q).siblings[i];
      PreOrderVisits(nodes, path, k);
      assert q == [k] + q[1..];
      assert e.path == path + q;
    }
  }

  /** The converse of PreOrderLocates: every node getNodeByPath(path)[index]
      reaches is visited from the root with that path and index. */
  lemma PreOrderComplete(roots: seq<Node>, path: seq<int>, index: int)
    requires NodeAt(roots, path, index).Some?
    ensures exists e :: e in PreOrder(roots, []) && e.path == path && e.index == index &&
                        NodeAt(roots, path, index) == Some(e.node)
  {
    NodeAtAttached(roots, path, index);
    PreOrderReaches(roots, [], path, index);
    assert [] + path == path;
  }

  // ---------------------------------------------------------------------------
  // First match.

  /** The position of the first entry satisfying `p`. */
  function First(es: seq<Entry>, p: Entry -> bool): (r: Option<nat>)
    ensures r.Some? ==> r.value < |es| && p(es[r.value]) && forall j :: 0 <= j < r.value ==> !p(es[j])
    ensures r.None? ==> forall j :: 0 <= j < |es| ==> !p(es[j])
  {
    if es == [] then None
    else if p(es[0]) then Some(0)
    else match First(es[1..], p)
         case None => None
         case Some(j) => Some(j + 1)
  }

  /** The first match of a concatenation is the first match of the left part
      if it has one, else the first match of the right part, shifted. */
  lemma {:induction false} FirstAppend(a: seq<Entry>, b: seq<Entry>, p: Entry -> bool)
    ensures First(a + b, p) ==
              if First(a, p).Some? then First(a, p)
              else if First(b, p).Some? then Some(|a| + First(b, p).value)
              else None
  {
    if a == [] {
      assert a + b == b;
    } else {
      assert (a + b)[0] == a[0];
      assert (a + b)[1..] == a[1..] + b;
      FirstAppend(a[1..], b, p);
    }
  }

  /** A match in a prefix is the match of the whole. */
  lemma FirstPrefix(a: seq<Entry>, b: seq<Entry>, p: Entry -> bool)
    requires a <= b && First(a, p).Some?
    ensures First(b, p) == First(a, p)
  {
    assert b == a + b[|a|..];
    FirstAppend(a, b[|a|..], p);
  }

  // ---------------------------------------------------------------------------
  // findPathToTechnology.

  /** `node.id === target` */
  function HasId(target: Option<string>): Entry -> bool {
    (e: Entry) => e.node.id == target
  }

  /** The `{path, index}` of the first visited node whose id equals `target`
      (undefined === undefined, so an id-less target meets the first id-less node). */
  function PathTo(nodes: seq<Node>, path: seq<nat>, target: Option<string>): Option<(seq<nat>, nat)> {
    Locate(PreOrder(nodes, path), HasId(target))
  }

  /** The `{path, index}` of the first entry satisfying `p`. */
  function Locate(es: seq<Entry>, p: Entry -> bool): Option<(seq<nat>, nat)> {
    match First(es, p)
    case None => None
    case Some(j) => Some((es[j].path, es[j].index))
  }

  /** Entries after a part with no match are located as on their own. */
  lemma LocateAfter(a: seq<Entry>, b: seq<Entry>, p: Entry -> bool)
    requires First(a, p).None?
    ensures Locate(a + b, p) == Locate(b, p)
  {
    FirstAppend(a, b, p);
    if First(b, p).Some? {
      assert (a + b)[|a| + First(b, p).value] == b[First(b, p).value];
    }
  }

  /** A prefix with a match is located like the whole. */
  lemma LocatePrefix(a: seq<Entry>, b: seq<Entry>, p: Entry -> bool)
    requires a <= b && First(a, p).Some?
    ensures Locate(b, p) == Locate(a, p)
  {
    FirstPrefix(a, b, p);
    assert b[First(a, p).value] == a[First(a, p).value];
  }

  /** findPath: the for-loop returns at the first match, of the node itself
      or of its subtree. */
  method FindPath(nodes: seq<Node>, currentPath: seq<nat>, target: Option<string>) returns (r: Option<(seq<nat>, nat)>)
    decreases nodes
    ensures r == PathTo(nodes, currentPath, target)
  {
    for i := 0 to |nodes|
      invariant First(PreOrder(nodes[..i], currentPath), HasId(target)).None?
    {
      var node := nodes[i];
      FindPathStep(nodes, currentPath, i, target);
      if node.id == target {
        return Some((currentPath, i));
      }
      if node.children.Present? {
        var result := FindPath(node.children.nodes, currentPath + [i], target);
        if result.Some? {
          return result;
        }
      }
    }
    assert nodes[..|nodes|] == nodes;
    return None;
  }

  /** One turn of findPath's loop, given that no earlier node matched: a
      match at `nodes[i]` or in its subtree is the first match overall, and
      otherwise nothing up to and including that subtree matches. */
  lemma FindPathStep(nodes: seq<Node>, path: seq<nat>, i: nat, target: Option<string>)
    requires i < |nodes| && First(PreOrder(nodes[..i], path), HasId(target)).None?
    ensures nodes[i].id == target ==> PathTo(nodes, path, target) == Some((path, i))
    ensures nodes[i].id != target && nodes[i].children.Present? &&
            PathTo(nodes[i].children.nodes, path + [i], target).Some? ==>
              PathTo(nodes, path, target) == PathTo(nodes[i].children.nodes, path + [i], target)
    ensures nodes[i].id != target &&
            (nodes[i].children.Absent? || PathTo(nodes[i].children.nodes, path + [i], target).None?) ==>
              First(PreOrder(nodes[..i + 1], path), HasId(target)).None?
  {
    var p := HasId(target);
    var node := nodes[i];
    var visited := PreOrder(nodes[..i], path);
    var e := Entry(path, i, node);
    var sub := Below(node, path + [i]);
    var upTo := PreOrder(nodes[..i + 1], path);
    PreOrderStep(nodes, path, i);
    assert upTo == visited + ([e] + sub);
    FirstAppend(visited, [e], p);
    FirstAppend(visited + [e], sub, p);
    PreOrderPrefix(nodes, path, i + 1);
    LocateAfter(visited, [e] + sub, p);
    if node.id == target {
      LocatePrefix(upTo, PreOrder(nodes, path), p);
    } else if First(sub, p).Some? {
      LocateAfter([e], sub, p);
      LocatePrefix(upTo, PreOrder(nodes, path), p);
    }
  }

  /** findPathToTechnology: a result locates, through getNodeByPath and the
      index, a node carrying the target id, and no earlier visited node
      carries it; null means no node of the document carries it. */
  method FindPathToTechnology(doc: TechData, target: Option<string>) returns (r: Option<(seq<nat>, nat)>)
    ensures r == PathTo(doc.categories, [], target)
  {
    r := FindPath(doc.categories, [], target);
  }

  lemma PathToSpec(roots: seq<Node>, target: Option<string>)
    ensures var r := PathTo(roots, [], target);
            (r.Some? ==> NodeAt(roots, r.value.0, r.value.1).Some? && NodeAt(roots, r.value.0, r.value.1).value.id == target) &&
            (r.None? <==> forall e :: e in PreOrder(roots, []) ==> e.node.id != target)
  {
    PreOrderLocates(roots, roots, []);
    var es := PreOrder(roots, []);
    var f := First(es, HasId(target));
    if f.Some? {
      assert es[f.value] in es;
    } else {
      forall e | e in es
        ensures e.node.id != target
      {
        var j :| 0 <= j < |es| && es[j] == e;
      }
    }
  }

  // ---------------------------------------------------------------------------
  // getAllTechnologies.

  /** The id generator `'tech_' + random`, as an oracle of the position. */
  function NewId(gen: (seq<nat>, nat) -> string, path: seq<nat>, i: nat): string {
    "tech_" + gen(path, i)
  }

  /** A technology with a falsy id gets a new one. */
  function WithTechId(n: Node, path: seq<nat>, i: nat, gen: (seq<nat>, nat) -> string): Node {
    if n.kind == Technology && !Truthy(n.id) then n.(id := Some(NewId(gen, path, i))) else n
  }

  /** The document after getAllTechnologies' traversal has given an id to
      every technology. */
  function TechIds(nodes: seq<Node>, path: seq<nat>, gen: (seq<nat>, nat) -> string): (r: seq<Node>)
    decreases nodes
    ensures |r| == |nodes|
  {
    if nodes == [] then []
    else
      var i := |nodes| - 1;
      TechIds(nodes[..i], path, gen) + [TechIdsNode(nodes[i], path, i, gen)]
  }

  function TechIdsNode(n: Node, path: seq<nat>, i: nat, gen: (seq<nat>, nat) -> string): Node
    decreases n, 0
  {
    var m := WithTechId(n, path, i, gen);
    if n.children.Present? then m.(children := Present(TechIds(n.children.nodes, path + [i], gen))) else m
  }

  /** The technology nodes of a visit, in order. */
  function Technologies(es: seq<Entry>): (r: seq<Node>)
    ensures forall t :: t in r ==> t.kind == Technology
    ensures |r| <= |es|
  {
    if es == [] then []
    else Technologies(es[..|es| - 1]) + (if es[|es| - 1].node.kind == Technology then [es[|es| - 1].node] else [])
  }

  lemma {:induction false} TechnologiesAppend(a: seq<Entry>, b: seq<Entry>)
    ensures Technologies(a + b) == Technologies(a) + Technologies(b)
  {
    if b == [] {
      assert a + b == a;
    } else {
      assert (a + b)[..|a + b| - 1] == a + b[..|b| - 1];
      TechnologiesAppend(a, b[..|b| - 1]);
    }
  }

  /** Two visits of the same shape: the same positions, names, types and
      children presence, visited in the same order. */
  predicate SameShape(a: seq<Entry>, b: seq<Entry>) {
    |a| == |b| &&
    forall j :: 0 <= j < |a| ==>
      a[j].path == b[j].path && a[j].index == b[j].index && a[j].node.name == b[j].node.name &&
      a[j].node.kind == b[j].node.kind
  }

  lemma SameShapeAppend(a: seq<Entry>, b: seq<Entry>, c: seq<Entry>, d: seq<Entry>)
    requires SameShape(a, b) && SameShape(c, d)
    ensures SameShape(a + c, b + d)
  {
    forall j | 0 <= j < |a + c|
      ensures (a + c)[j].path == (b + d)[j].path && (a + c)[j].index == (b + d)[j].index &&
              (a + c)[j].node.name == (b + d)[j].node.name && (a + c)[j].node.kind == (b + d)[j].node.kind
    {
      if j < |a| {
        assert (a + c)[j] == a[j] && (b + d)[j] == b[j];
      } else {
        assert (a + c)[j] == c[j - |a|] && (b + d)[j] == d[j - |a|];
      }
    }
  }

  /** After the traversal the document is visited in the same shape, and
      every technology in it has an id; ids already present are kept. */
  lemma {:induction false} TechIdsSpec(nodes: seq<Node>, path: seq<nat>, gen: (seq<nat>, nat) -> string)
    ensures var es := PreOrder(nodes, path);
            var fs := PreOrder(TechIds(nodes, path, gen), path);
            SameShape(es, fs) && IdsGiven(es, fs)
    decreases nodes
  {
    if nodes != [] {
      var i := |nodes| - 1;
      var n := nodes[i];
      var fixed := TechIds(nodes, path, gen);
      var m := TechIdsNode(n, path, i, gen);
      assert fixed[..i] == TechIds(nodes[..i], path, gen);
      assert fixed[i] == m;
      TechIdsSpec(nodes[..i], path, gen);
      var below := Below(n, path + [i]);
      var below' := Below(m, path + [i]);
      if n.children.Present? {
        TechIdsSpec(n.children.nodes, path + [i], gen);
      }
      var es0 := PreOrder(nodes[..i], path);
      var fs0 := PreOrder(fixed[..i], path);
      var e, f := [Entry(path, i, n)], [Entry(path, i, m)];
      SameShapeAppend(es0, fs0, e, f);
      SameShapeAppend(es0 + e, fs0 + f, below, below');
      IdsGivenAppend(es0, fs0, e, f);
      IdsGivenAppend(es0 + e, fs0 + f, below, below');
      assert PreOrder(nodes, path) == es0 + e + below;
      assert PreOrder(fixed, path) == fs0 + f + below';
    }
  }

  /** Every technology of `fs` has an id, and the ids present in `es` are
      kept at the same positions of `fs`. */
  predicate IdsGiven(es: seq<Entry>, fs: seq<Entry>) {
    |es| == |fs| &&
    (forall j :: 0 <= j < |fs| && fs[j].node.kind == Technology ==> Truthy(fs[j].node.id)) &&
    (forall j :: 0 <= j < |fs| && Truthy(es[j].node.id) ==> fs[j].node.id == es[j].node.id)
  }

  lemma IdsGivenAppend(a: seq<Entry>, b: seq<Entry>, c: seq<Entry>, d: seq<Entry>)
    requires IdsGiven(a, b) && IdsGiven(c, d)
    ensures IdsGiven(a + c, b + d)
  {
    forall j | 0 <= j < |b + d|
      ensures (b + d)[j].node.kind == Technology ==> Truthy((b + d)[j].node.id)
      ensures Truthy((a + c)[j].node.id) ==> (b + d)[j].node.id == (a + c)[j].node.id
    {
      if j < |a| {
        assert (a + c)[j] == a[j] && (b + d)[j] == b[j];
      } else {
        assert (a + c)[j] == c[j - |a|] && (b + d)[j] == d[j - |a|];
      }
    }
  }

  /** Appending one node to the siblings appends it (when it is a technology)
      and then the technologies of its subtree. */
  lemma TechnologiesStep(nodes: seq<Node>, node: Node, path: seq<nat>)
    ensures Technologies(PreOrder(nodes + [node], path)) ==
            Technologies(PreOrder(nodes, path)) + (if node.kind == Technology then [node] else []) +
            Technologies(Below(node, path + [|nodes|]))
  {
    var i := |nodes|;
    var before := PreOrder(nodes, path);
    var e := Entry(path, i, node);
    PreOrderStep(nodes + [node], path, i);
    assert (nodes + [node])[..i] == nodes && (nodes + [node])[..i + 1] == nodes + [node];
    TechnologiesAppend(before, [e]);
    TechnologiesAppend(before + [e], Below(node, path + [i]));
    assert Technologies([e]) == if node.kind == Technology then [node] else [] by {
      assert [e][..0] == [];
    }
  }

  /** traverse: the forEach gives ids to technologies and pushes them, then
      descends into `children`. The pushed objects are the document's own,
      so the list shows the ids given later in the same traversal. */
  method Traverse(nodes: seq<Node>, path: seq<nat>, gen: (seq<nat>, nat) -> string)
      returns (fixed: seq<Node>, technologies: seq<Node>)
    decreases nodes
    ensures fixed == TechIds(nodes, path, gen)
    ensures technologies == Technologies(PreOrder(fixed, path))
  {
    fixed := [];
    technologies := [];
    for i := 0 to |nodes|
      invariant fixed == TechIds(nodes[..i], path, gen)
      invariant technologies == Technologies(PreOrder(fixed, path))
    {
      var node := nodes[i];
      var sub: seq<Node> := [];
      if node.kind == Technology && !Truthy(node.id) {
        node := node.(id := Some(NewId(gen, path, i)));
      }
      if node.children.Present? {
        var kids;
        kids, sub := Traverse(node.children.nodes, path + [i], gen);
        node := node.(children := Present(kids));
      }
      assert node == TechIdsNode(nodes[i], path, i, gen);
      assert nodes[..i + 1][..i] == nodes[..i];
      assert sub == Technologies(Below(node, path + [|fixed|]));
      TechnologiesStep(fixed, node, path);
      fixed := fixed + [node];
      technologies := technologies + (if node.kind == Technology then [node] else []) + sub;
    }
    assert nodes[..|nodes|] == nodes;
  }

  /** getAllTechnologies: every technology of the document in visiting
      order, each with an id written back into the document. */
  method GetAllTechnologies(doc: TechData, gen: (seq<nat>, nat) -> string) returns (r: seq<Node>)
    modifies doc
    ensures doc.categories == TechIds(old(doc.categories), [], gen)
    ensures r == Technologies(PreOrder(doc.categories, []))
  {
    var fixed;
    fixed, r := Traverse(doc.categories, [], gen);
    doc.categories := fixed;
  }

  /** The list holds the technologies of the original document, in visiting
      order and by name, each now with an id. */
  lemma AllTechnologiesSpec(roots: seq<Node>, gen: (seq<nat>, nat) -> string)
    ensures var r := Technologies(PreOrder(TechIds(roots, [], gen), []));
            var t := Technologies(PreOrder(roots, []));
            |r| == |t| &&
            (forall j :: 0 <= j < |r| ==> r[j].name == t[j].name && Truthy(r[j].id)) &&
            (forall j :: 0 <= j < |r| && Truthy(t[j].id) ==> r[j].id == t[j].id)
  {
    var es := PreOrder(roots, []);
    var fs := PreOrder(TechIds(roots, [], gen), []);
    TechIdsSpec(roots, [], gen);
    TechnologiesAligned(es, fs);
  }

  /** The technologies of two visits of the same shape line up. */
  lemma {:induction false} TechnologiesAligned(es: seq<Entry>, fs: seq<Entry>)
    requires SameShape(es, fs) && IdsGiven(es, fs)
    ensures Aligned(Technologies(fs), Technologies(es))
  {
    if es != [] {
      var k := |es| - 1;
      var r0, t0 := Technologies(fs[..k]), Technologies(es[..k]);
      PrefixAligned(es, fs, k);
      TechnologiesAligned(es[..k], fs[..k]);
      assert es[k].node.kind == fs[k].node.kind && es[k].node.name == fs[k].node.name;
      if fs[k].node.kind == Technology {
        var e, f := es[k].node, fs[k].node;
        assert Technologies(fs) == r0 + [f] && Technologies(es) == t0 + [e];
        AlignedSnoc(r0, t0, f, e);
      } else {
        assert Technologies(fs) == r0 && Technologies(es) == t0;
      }
    }
  }

  /** Technologies listed in the same order under the same names, the later
      list giving every one an id and keeping the ids already given. */
  predicate Aligned(r: seq<Node>, t: seq<Node>) {
    |r| == |t| &&
    (forall j :: 0 <= j < |r| ==> r[j].name == t[j].name && Truthy(r[j].id)) &&
    (forall j :: 0 <= j < |r| && Truthy(t[j].id) ==> r[j].id == t[j].id)
  }

  lemma AlignedSnoc(r: seq<Node>, t: seq<Node>, f: Node, e: Node)
    requires Aligned(r, t) && f.name == e.name && Truthy(f.id) && (Truthy(e.id) ==> f.id == e.id)
    ensures Aligned(r + [f], t + [e])
  {
    forall j | 0 <= j < |r| + 1
      ensures (r + [f])[j].name == (t + [e])[j].name && Truthy((r + [f])[j].id)
      ensures Truthy((t + [e])[j].id) ==> (r + [f])[j].id == (t + [e])[j].id
    {
      if j < |r| {
        assert (r + [f])[j] == r[j] && (t + [e])[j] == t[j];
      }
    }
  }

  lemma PrefixAligned(es: seq<Entry>, fs: seq<Entry>, k: nat)
    requires SameShape(es, fs) && IdsGiven(es, fs) && k <= |es|
    ensures SameShape(es[..k], fs[..k]) && IdsGiven(es[..k], fs[..k])
  {
    assert forall j :: 0 <= j < k ==> es[..k][j] == es[j] && fs[..k][j] == fs[j];
  }

  // ---------------------------------------------------------------------------
  // findTechnologyByName.

  /** `allTech.find(tech => tech.name === name)` */
  function FirstNamed(ts: seq<Node>, name: string): (r: Option<nat>)
    ensures r.Some? ==> r.value < |ts| && ts[r.value].name == name && forall j :: 0 <= j < r.value ==> ts[j].name != name
    ensures r.None? ==> forall j :: 0 <= j < |ts| ==> ts[j].name != name
  {
    if ts == [] then None
    else if ts[0].name == name then Some(0)
    else match FirstNamed(ts[1..], name)
         case None => None
         case Some(j) => Some(j + 1)
  }

  /** findTechnologyByName: the first technology, in visiting order, with
      exactly that name; getAllTechnologies' ids are written back. */
  method FindTechnologyByName(doc: TechData, name: string, gen: (seq<nat>, nat) -> string) returns (r: Option<Node>)
    modifies doc
    ensures doc.categories == TechIds(old(doc.categories), [], gen)
    ensures var ts := Technologies(PreOrder(doc.categories, []));
            r == if FirstNamed(ts, name).Some? then Some(ts[FirstNamed(ts, name).value]) else None
  {
    var all := GetAllTechnologies(doc, gen);
    var k := FirstNamed(all, name);
    r := if k.Some? then Some(all[k.value]) else None;
  }

  // ---------------------------------------------------------------------------
  // findTechnologyById.

  /** A node of any type with a falsy id gets a new one. */
  function WithId(n: Node, path: seq<nat>, i: nat, gen: (seq<nat>, nat) -> string): (m: Node)
    ensures Truthy(m.id) && m.children == n.children
    ensures Truthy(n.id) ==> m == n
  {
    if !Truthy(n.id) then n.(id := Some(NewId(gen, path, i))) else n
  }

  /** findInNodes as a value: the siblings after the search (every node it
      passed has an id; nodes after the match are untouched) and the match. */
  function FindIn(nodes: seq<Node>, path: seq<nat>, target: string, gen: (seq<nat>, nat) -> string): (r: (seq<Node>, Option<Node>))
    decreases nodes
    ensures |r.0| == |nodes|
  {
    if nodes == [] then ([], None)
    else
      var i := |nodes| - 1;
      var (pre, f) := FindIn(nodes[..i], path, target, gen);
      if f.Some? then (pre + [nodes[i]], f)
      else
        var (n, g) := FindInNode(nodes[i], path, i, target, gen);
        (pre + [n], g)
  }

  /** One iteration of findInNodes' loop when nothing matched before. */
  function FindInNode(node: Node, path: seq<nat>, i: nat, target: string, gen: (seq<nat>, nat) -> string): (r: (Node, Option<Node>))
    decreases node, 0
  {
    var m := WithId(node, path, i, gen);
    if m.id == Some(target) then (m, Some(m))
    else if node.children.Present? then
      var (kids, g) := FindIn(node.children.nodes, path + [i], target, gen);
      (m.(children := Present(kids)), g)
    else (m, None)
  }

  /** After a match in the first k siblings the rest are untouched. */
  lemma {:induction false} FindInStops(nodes: seq<Node>, path: seq<nat>, target: string, gen: (seq<nat>, nat) -> string, k: nat)
    requires k <= |nodes| && FindIn(nodes[..k], path, target, gen).1.Some?
    ensures FindIn(nodes, path, target, gen) == (FindIn(nodes[..k], path, target, gen).0 + nodes[k..], FindIn(nodes[..k], path, target, gen).1)
    decreases |nodes| - k
  {
    if k == |nodes| {
      assert nodes[..k] == nodes;
      assert nodes[k..] == [];
      assert FindIn(nodes[..k], path, target, gen).0 + nodes[k..] == FindIn(nodes[..k], path, target, gen).0;
    } else {
      assert nodes[..k + 1][..k] == nodes[..k];
      var r := FindIn(nodes[..k], path, target, gen);
      assert FindIn(nodes[..k + 1], path, target, gen) == (r.0 + [nodes[k]], r.1);
      FindInStops(nodes, path, target, gen, k + 1);
      assert r.0 + [nodes[k]] + nodes[k + 1..] == r.0 + nodes[k..];
    }
  }

  /** The outcome of a search over the visit `es`: `found` is the first
      visited node whose id is the target, and every node visited before it
      (every node, when there is no match) has an id. */
  predicate SearchOutcome(es: seq<Entry>, target: string, found: Option<Node>) {
    var f := First(es, HasId(Some(target)));
    (found.None? ==> f.None? && forall j :: 0 <= j < |es| ==> Truthy(es[j].node.id)) &&
    (found.Some? ==> f.Some? && found.value == es[f.value].node && forall j :: 0 <= j < f.value ==> Truthy(es[j].node.id))
  }

  lemma SearchOutcomeAppend(a: seq<Entry>, b: seq<Entry>, target: string, fa: Option<Node>, fb: Option<Node>)
    requires SearchOutcome(a, target, fa)
    requires fa.None? ==> SearchOutcome(b, target, fb)
    ensures SearchOutcome(a + b, target, if fa.Some? then fa else fb)
  {
    FirstAppend(a, b, HasId(Some(target)));
    forall j | 0 <= j < |a + b|
      ensures (a + b)[j] == if j < |a| then a[j] else b[j - |a|]
    {
    }
  }

  /** The match is the first node, in the visiting order of the document
      after the search, whose id is the target; every node visited before it
      (every node, when there is no match) has an id. */
  lemma {:induction false} FindInSpec(nodes: seq<Node>, path: seq<nat>, target: string, gen: (seq<nat>, nat) -> string)
    ensures SearchOutcome(PreOrder(FindIn(nodes, path, target, gen).0, path), target, FindIn(nodes, path, target, gen).1)
    decreases nodes, 1
  {
    if nodes != [] {
      var i := |nodes| - 1;
      var (pre, f) := FindIn(nodes[..i], path, target, gen);
      FindInSpec(nodes[..i], path, target, gen);
      var (after, found) := FindIn(nodes, path, target, gen);
      var last := after[i];
      assert after == pre + [last];
      assert after[..i] == pre;
      var es0 := PreOrder(pre, path);
      var es1 := [Entry(path, i, last)] + Below(last, path + [i]);
      assert PreOrder(after, path) == es0 + es1;
      if f.None? {
        assert (last, found) == FindInNode(nodes[i], path, i, target, gen);
        FindInNodeSpec(nodes[i], path, i, target, gen);
      }
      SearchOutcomeAppend(es0, es1, target, f, found);
    }
  }

  /** The same outcome for one node and its subtree. */
  lemma {:induction false} FindInNodeSpec(node: Node, path: seq<nat>, i: nat, target: string, gen: (seq<nat>, nat) -> string)
    ensures var (m, g) := FindInNode(node, path, i, target, gen);
            SearchOutcome([Entry(path, i, m)] + Below(m, path + [i]), target, g)
    decreases node, 0
  {
    var (m, g) := FindInNode(node, path, i, target, gen);
    var w := WithId(node, path, i, gen);
    var head := [Entry(path, i, m)];
    assert First(head, HasId(Some(target))) == if m.id == Some(target) then Some(0) else None by {
      assert head[1..] == [];
    }
    if w.id == Some(target) {
      SearchOutcomeAppend(head, Below(m, path + [i]), target, g, g);
    } else if node.children.Present? {
      FindInSpec(node.children.nodes, path + [i], target, gen);
      SearchOutcomeAppend(head, Below(m, path + [i]), target, None, g);
    } else {
      assert Below(m, path + [i]) == [];
      SearchOutcomeAppend(head, [], target, None, None);
      assert head + [] == head;
    }
  }

  /** findInNodes: the for-of loop returns at the first match, of the node
      itself or of its subtree, having assigned ids on the way. */
  method FindInNodes(nodes: seq<Node>, path: seq<nat>, target: string, gen: (seq<nat>, nat) -> string)
      returns (after: seq<Node>, found: Option<Node>)
    decreases nodes
    ensures (after, found) == FindIn(nodes, path, target, gen)
  {
    after := [];
    for i := 0 to |nodes|
      invariant (after, None) == FindIn(nodes[..i], path, target, gen)
    {
      assert nodes[..i + 1][..i] == nodes[..i];
      var node := nodes[i];
      if !Truthy(node.id) {
        node := node.(id := Some(NewId(gen, path, i)));
      }
      if node.id == Some(target) {
        FindInStops(nodes, path, target, gen, i + 1);
        after, found := after + [node] + nodes[i + 1..], Some(node);
        return;
      }
      if node.children.Present? {
        var kids, g := FindInNodes(node.children.nodes, path + [i], target, gen);
        node := node.(children := Present(kids));
        if g.Some? {
          FindInStops(nodes, path, target, gen, i + 1);
          after, found := after + [node] + nodes[i + 1..], g;
          return;
        }
      }
      after := after + [node];
    }
    assert nodes[..|nodes|] == nodes;
    found := None;
  }

  /** findTechnologyById */
  method FindTechnologyById(doc: TechData, target: string, gen: (seq<nat>, nat) -> string) returns (r: Option<Node>)
    modifies doc
    ensures (doc.categories, r) == FindIn(old(doc.categories), [], target, gen)
  {
    var after;
    after, r := FindInNodes(doc.categories, [], target, gen);
    doc.categories := after;
  }

  // ---------------------------------------------------------------------------
  // The search only assigns ids.

  /** Two sibling arrays that differ at most in ids, anywhere below. */
  predicate SameButIds(a: seq<Node>, b: seq<Node>)
    decreases a
  {
    |a| == |b| && forall j :: 0 <= j < |a| ==> SameNodeButIds(a[j], b[j])
  }

  predicate SameNodeButIds(x: Node, y: Node)
    decreases x, 0
  {
    y == x.(id := y.id, children := y.children) &&
    (x.children.Present? <==> y.children.Present?) &&
    (x.children.Present? ==> SameButIds(x.children.nodes, y.children.nodes))
  }

  /** findTechnologyById changes nothing but ids. */
  lemma {:induction false} FindInOnlyIds(nodes: seq<Node>, path: seq<nat>, target: string, gen: (seq<nat>, nat) -> string)
    ensures SameButIds(nodes, FindIn(nodes, path, target, gen).0)
    decreases nodes, 1
  {
    if nodes != [] {
      var i := |nodes| - 1;
      var (pre, f) := FindIn(nodes[..i], path, target, gen);
      FindInOnlyIds(nodes[..i], path, target, gen);
      var after := FindIn(nodes, path, target, gen).0;
      assert after == pre + [after[i]];
      if f.None? {
        FindInNodeOnlyIds(nodes[i], path, i, target, gen);
      } else {
        SameNodeButIdsRefl(nodes[i]);
      }
      forall j | 0 <= j < |nodes|
        ensures SameNodeButIds(nodes[j], after[j])
      {
        if j < i {
          assert nodes[j] == nodes[..i][j] && after[j] == pre[j];
        }
      }
    }
  }

  lemma {:induction false} FindInNodeOnlyIds(node: Node, path: seq<nat>, i: nat, target: string, gen: (seq<nat>, nat) -> string)
    ensures SameNodeButIds(node, FindInNode(node, path, i, target, gen).0)
    decreases node, 0
  {
    var w := WithId(node, path, i, gen);
    if w.id != Some(target) && node.children.Present? {
      FindInOnlyIds(node.children.nodes, path + [i], target, gen);
    } else if node.children.Present? {
      SameButIdsRefl(node.children.nodes);
    }
  }

  /** getAllTechnologies changes nothing but ids. */
  lemma {:induction false} TechIdsOnlyIds(nodes: seq<Node>, path: seq<nat>, gen: (seq<nat>, nat) -> string)
    ensures SameButIds(nodes, TechIds(nodes, path, gen))
    decreases nodes, 1
  {
    if nodes != [] {
      var i := |nodes| - 1;
      var pre := TechIds(nodes[..i], path, gen);
      TechIdsOnlyIds(nodes[..i], path, gen);
      TechIdsNodeOnlyIds(nodes[i], path, i, gen);
      var after := TechIds(nodes, path, gen);
      forall j | 0 <= j < |nodes|
        ensures SameNodeButIds(nodes[j], after[j])
      {
        if j < i {
          assert nodes[j] == nodes[..i][j] && after[j] == pre[j];
        }
      }
    }
  }

  lemma {:induction false} TechIdsNodeOnlyIds(node: Node, path: seq<nat>, i: nat, gen: (seq<nat>, nat) -> string)
    ensures SameNodeButIds(node, TechIdsNode(node, path, i, gen))
    decreases node, 0
  {
    if node.children.Present? {
      TechIdsOnlyIds(node.children.nodes, path + [i], gen);
    }
  }

  /** After toggleLink and the rendering that follows it, the current item
      still sits at its location and carries exactly the toggled links; the
      rest of the document differs from the toggled one only in ids. */
  lemma ToggleLinkRendered(roots: seq<Node>, path: seq<int>, index: int, techId: string,
                           gen: (seq<nat>, nat) -> string, renderGen: (seq<nat>, nat) -> string)
    requires NodeAt(roots, path, index).Some?
    ensures var toggled := LinkToggledDoc(roots, path, index, techId, gen);
            var r := TechIds(toggled, [], renderGen);
            SameButIds(toggled, r) &&
            NodeAt(toggled, path, index).Some? && NodeAt(r, path, index).Some? &&
            NodeAt(r, path, index).value.links == NodeAt(toggled, path, index).value.links
  {
    var toggled := LinkToggledDoc(roots, path, index, techId, gen);
    LinkToggledDocSpec(roots, path, index, techId, gen);
    TechIdsOnlyIds(toggled, [], renderGen);
    NodeAtSameButIds(toggled, TechIds(toggled, [], renderGen), path, index);
  }

  lemma {:induction false} SameButIdsRefl(a: seq<Node>)
    ensures SameButIds(a, a)
    decreases a
  {
    forall j | 0 <= j < |a|
      ensures SameNodeButIds(a[j], a[j])
    {
      SameNodeButIdsRefl(a[j]);
    }
  }

  lemma {:induction false} SameNodeButIdsRefl(x: Node)
    ensures SameNodeButIds(x, x)
    decreases x, 0
  {
    if x.children.Present? {
      SameButIdsRefl(x.children.nodes);
    }
  }

  /** Arrays that differ only in ids resolve alike: the same paths succeed,
      to arrays that again differ only in ids. */
  lemma {:induction false} WalkSameButIds(a: seq<Node>, b: seq<Node>, attached: bool, path: seq<int>)
    requires SameButIds(a, b)
    ensures Walk(a, attached, path).Found? <==> Walk(b, attached, path).Found?
    ensures Walk(a, attached, path).Found? ==>
              Walk(a, attached, path).attached == Walk(b, attached, path).attached &&
              SameButIds(Walk(a, attached, path).siblings, Walk(b, attached, path).siblings)
    decreases path
  {
    if path != [] && 0 <= path[0] < |a| {
      var x, y := a[path[0]], b[path[0]];
      assert SameNodeButIds(x, y);
      if x.children.Present? {
        WalkSameButIds(x.children.nodes, y.children.nodes, attached, path[1..]);
      } else {
        WalkSameButIds([], [], false, path[1..]);
      }
    }
  }

  /** Hence a node located in one is located in the other, with the same links. */
  lemma NodeAtSameButIds(a: seq<Node>, b: seq<Node>, path: seq<int>, index: int)
    requires SameButIds(a, b)
    ensures NodeAt(a, path, index).Some? <==> NodeAt(b, path, index).Some?
    ensures NodeAt(a, path, index).Some? ==>
              SameNodeButIds(NodeAt(a, path, index).value, NodeAt(b, path, index).value) &&
              NodeAt(a, path, index).value.links == NodeAt(b, path, index).value.links
  {
    WalkSameButIds(a, b, true, path);
  }

  // ---------------------------------------------------------------------------
  // toggleLink.

  /** `links.findIndex(link => link.id === techId)` */
  function LinkIndex(links: seq<Link>, techId: string): (r: Option<nat>)
    ensures r.Some? ==> r.value < |links| && links[r.value].id == techId && forall j :: 0 <= j < r.value ==> links[j].id != techId
    ensures r.None? ==> forall j :: 0 <= j < |links| ==> links[j].id != techId
  {
    if links == [] then None
    else if links[0].id == techId then Some(0)
    else match LinkIndex(links[1..], techId)
         case None => None
         case Some(j) => Some(j + 1)
  }

  /** The links after a toggle, given what findTechnologyById returned. */
  function LinksToggled(links: seq<Link>, techId: string, target: Option<Node>): seq<Link> {
    match LinkIndex(links, techId)
    case Some(k) => links[..k] + links[k + 1..]
    case None => if target.Some? then links + [Link(techId, target.value.name, [])] else links
  }

  /** A present id loses exactly its first link, the rest keep their order;
      an absent id gains `{id, name, path: []}` when the target was found. */
  lemma LinksToggledSpec(links: seq<Link>, techId: string, target: Option<Node>)
    ensures var r := LinksToggled(links, techId, target);
            match LinkIndex(links, techId)
            case Some(k) =>
              |r| == |links| - 1 &&
              (forall j :: 0 <= j < k ==> r[j] == links[j]) &&
              (forall j :: k <= j < |r| ==> r[j] == links[j + 1])
            case None =>
              r == links + (if target.Some? then [Link(techId, target.value.name, [])] else [])
  {
  }

  /** Toggling an absent id twice leaves the links as they were. */
  lemma LinksToggledTwice(links: seq<Link>, techId: string, t1: Option<Node>, t2: Option<Node>)
    requires LinkIndex(links, techId).None? && (t1.None? ==> t2.None?)
    ensures LinksToggled(LinksToggled(links, techId, t1), techId, t2) == links
  {
    if t1.Some? {
      var once := links + [Link(techId, t1.value.name, [])];
      assert LinksToggled(links, techId, t1) == once;
      assert LinkIndex(once, techId) == Some(|links|) by {
        forall j | 0 <= j < |links|
          ensures once[j].id != techId
        {
          assert once[j] == links[j];
        }
      }
      assert once[..|links|] + once[|links| + 1..] == links;
      assert LinksToggled(once, techId, t2) == once[..|links|] + once[|links| + 1..];
    }
  }

  // ---------------------------------------------------------------------------
  // openKnowledgeBase field initialisation.

  /** The fields openKnowledgeBase fills in: content, media, links and id. */
  function Initialised(n: Node, newId: string): (m: Node)
    ensures m == n.(content := m.content, media := m.media, links := m.links, id := m.id)
    ensures m.content == (if Truthy(n.content) then n.content else Some(""))
    ensures m.media == (if n.media.Some? then n.media else Some([]))
    ensures m.links == (if n.links.Some? then n.links else Some([]))
    ensures Truthy(n.id) ==> m.id == n.id
    ensures !Truthy(n.id) ==> m.id == Some("tech_" + newId)
  {
    var content := if Truthy(n.content) then n.content else Some("");
    var media := if n.media.Some? then n.media else Some([]);
    var links := if n.links.Some? then n.links else Some([]);
    var id := if Truthy(n.id) then n.id else Some("tech_" + newId);
    n.(content := content, media := media, links := links, id := id)
  }

  /** Initialising twice changes nothing more. */
  lemma InitialisedIdempotent(n: Node, a: string, b: string)
    ensures Initialised(Initialised(n, a), b) == Initialised(n, a)
  {
  }

  // ---------------------------------------------------------------------------
  // The manager.

  /** The document after toggleLink on the node at (path, index). */
  function LinkToggledDoc(roots: seq<Node>, path: seq<int>, index: int, techId: string, gen: (seq<nat>, nat) -> string): seq<Node>
    requires NodeAt(roots, path, index).Some?
  {
    var item := NodeAt(roots, path, index).value;
    var links := item.links.GetOr([]);
    match LinkIndex(links, techId)
    case Some(k) => SetNodeAt(roots, path, index, item.(links := Some(links[..k] + links[k + 1..])))
    case None =>
      var initialised := SetNodeAt(roots, path, index, item.(links := Some(links)));
      SetNodeAtAlgebra(roots, path, index, item.(links := Some(links)), item);
      var (searched, target) := FindIn(initialised, [], techId, gen);
      FindInOnlyIds(initialised, [], techId, gen);
      NodeAtSameButIds(initialised, searched, path, index);
      if target.None? then searched
      else
        var current := NodeAt(searched, path, index).value;
        SetNodeAt(searched, path, index, current.(links := Some(links + [Link(techId, target.value.name, [])])))
  }

  /** toggleLink on the document: the node at (path, index) ends up with the
      toggled links, `[]` when it had none and nothing was found; the search,
      which runs only for an absent id, changes nothing but ids. */
  lemma LinkToggledDocSpec(roots: seq<Node>, path: seq<int>, index: int, techId: string, gen: (seq<nat>, nat) -> string)
    requires NodeAt(roots, path, index).Some?
    ensures var item := NodeAt(roots, path, index).value;
            var links := item.links.GetOr([]);
            var r := LinkToggledDoc(roots, path, index, techId, gen);
            NodeAt(r, path, index).Some? &&
            if LinkIndex(links, techId).Some? then
              NodeAt(r, path, index) == Some(item.(links := Some(LinksToggled(links, techId, None))))
            else
              var initialised := SetNodeAt(roots, path, index, item.(links := Some(links)));
              var target := FindIn(initialised, [], techId, gen).1;
              NodeAt(r, path, index).value.links == Some(LinksToggled(links, techId, target)) &&
              SameNodeButIds(item.(links := NodeAt(r, path, index).value.links), NodeAt(r, path, index).value)
  {
    var item := NodeAt(roots, path, index).value;
    var links := item.links.GetOr([]);
    if LinkIndex(links, techId).Some? {
      SetNodeAtSpec(roots, path, index, item.(links := Some(LinksToggled(links, techId, None))));
    } else {
      var set1 := item.(links := Some(links));
      var initialised := SetNodeAt(roots, path, index, set1);
      SetNodeAtSpec(roots, path, index, set1);
      var (searched, target) := FindIn(initialised, [], techId, gen);
      FindInOnlyIds(initialised, [], techId, gen);
      NodeAtSameButIds(initialised, searched, path, index);
      var current := NodeAt(searched, path, index).value;
      if target.Some? {
        var final := current.(links := Some(links + [Link(techId, target.value.name, [])]));
        SetNodeAtSpec(searched, path, index, final);
        SameNodeButIdsLinks(set1, current, final.links);
      } else {
        SameNodeButIdsLinks(set1, current, current.links);
      }
    }
  }

  /** Setting the same links on both sides keeps two nodes equal up to ids. */
  lemma SameNodeButIdsLinks(x: Node, y: Node, links: Option<seq<Link>>)
    requires SameNodeButIds(x, y)
    ensures SameNodeButIds(x.(links := links), y.(links := links))
  {
  }

  /** The knowledge manager: the shared document and the location of
      `currentItem`, the node whose knowledge base is open. */
  class KnowledgeManager {
    const doc: TechData
    var current: Option<(seq<int>, int)>

    constructor (doc: TechData)
      ensures this.doc == doc && current.None?
    {
      this.doc := doc;
      current := None;
    }

    /** openKnowledgeBase: a missing item changes nothing; otherwise it
        becomes the current item, its missing fields are filled in, and
        rendering its links gives every id-less technology an id. */
    method OpenKnowledgeBase(path: seq<int>, index: int, newId: string, renderGen: (seq<nat>, nat) -> string)
      modifies this, doc
      ensures NodeAt(old(doc.categories), path, index).None? ==>
                current == old(current) && doc.categories == old(doc.categories)
      ensures NodeAt(old(doc.categories), path, index).Some? ==>
                current == Some((path, index)) &&
                doc.categories == TechIds(SetNodeAt(old(doc.categories), path, index,
                                                    Initialised(NodeAt(old(doc.categories), path, index).value, newId)),
                                          [], renderGen)
    {
      var item := NodeAt(doc.categories, path, index);
      if item.None? {
        return;
      }
      current := Some((path, index));
      doc.categories := SetNodeAt(doc.categories, path, index, Initialised(item.value, newId));
      RenderLinks(renderGen);
    }

    /** renderLinks: the list it draws is not modelled, but the
        getAllTechnologies call it makes gives every technology without a
        truthy id one, in the shared document. */
    method RenderLinks(renderGen: (seq<nat>, nat) -> string)
      modifies doc
      ensures doc.categories == TechIds(old(doc.categories), [], renderGen)
    {
      var technologies := GetAllTechnologies(doc, renderGen);
    }

    /** toggleLink on the current item, followed by renderLinks. */
    method ToggleLink(techId: string, gen: (seq<nat>, nat) -> string, renderGen: (seq<nat>, nat) -> string)
      requires current.Some? && NodeAt(doc.categories, current.value.0, current.value.1).Some?
      modifies doc
      ensures doc.categories == TechIds(LinkToggledDoc(old(doc.categories), current.value.0, current.value.1, techId, gen),
                                        [], renderGen)
    {
      ToggleCurrentLinks(techId, gen);
      RenderLinks(renderGen);
    }

    /** The edit toggleLink makes before rendering. */
    method ToggleCurrentLinks(techId: string, gen: (seq<nat>, nat) -> string)
      requires current.Some? && NodeAt(doc.categories, current.value.0, current.value.1).Some?
      modifies doc
      ensures doc.categories == LinkToggledDoc(old(doc.categories), current.value.0, current.value.1, techId, gen)
    {
      var (path, index) := current.value;
      var item := NodeAt(doc.categories, path, index).value;
      var links := item.links.GetOr([]);
      var existingIndex := LinkIndex(links, techId);
      if existingIndex.Some? {
        var k := existingIndex.value;
        doc.categories := SetNodeAt(doc.categories, path, index, item.(links := Some(links[..k] + links[k + 1..])));
        return;
      }
      ghost var roots := doc.categories;
      doc.categories := SetNodeAt(doc.categories, path, index, item.(links := Some(links)));
      SetNodeAtAlgebra(roots, path, index, item.(links := Some(links)), item);
      ghost var initialised := doc.categories;
      var targetTech := FindTechnologyById(doc, techId, gen);
      FindInOnlyIds(initialised, [], techId, gen);
      NodeAtSameButIds(initialised, doc.categories, path, index);
      if targetTech.Some? {
        var currentItem := NodeAt(doc.categories, path, index).value;
        doc.categories := SetNodeAt(doc.categories, path, index,
                                    currentItem.(links := Some(links + [Link(techId, targetTech.value.name, [])])));
      }
    }
  }

  // ---------------------------------------------------------------------------
  // searchInKnowledgeBase.

  /** `s.includes(q)` */
  predicate Contains(s: string, q: string)
    decreases |s|
  {
    |q| <= |s| && (s[..|q|] == q || Contains(s[1..], q))
  }

  /** One result: the node, its parent path and index, and whether it matched
      by name or by content. */
  datatype SearchResult = SearchResult(node: Node, path: seq<nat>, index: nat, byName: bool)

  predicate NameHit(e: Entry, query: string, lower: string -> string) {
    Contains(lower(e.node.name), query)
  }

  predicate ContentHit(e: Entry, query: string, lower: string -> string) {
    Truthy(e.node.content) && Contains(lower(e.node.content.value), query)
  }

  /** The results one visited node contributes: its name match, then its content match. */
  function HitsOf(e: Entry, query: string, lower: string -> string): seq<SearchResult> {
    (if NameHit(e, query, lower) then [SearchResult(e.node, e.path, e.index, true)] else []) +
    (if ContentHit(e, query, lower) then [SearchResult(e.node, e.path, e.index, false)] else [])
  }

  function Hits(es: seq<Entry>, query: string, lower: string -> string): seq<SearchResult> {
    if es == [] then [] else Hits(es[..|es| - 1], query, lower) + HitsOf(es[|es| - 1], query, lower)
  }

  lemma {:induction false} HitsAppend(a: seq<Entry>, b: seq<Entry>, query: string, lower: string -> string)
    ensures Hits(a + b, query, lower) == Hits(a, query, lower) + Hits(b, query, lower)
  {
    if b == [] {
      assert a + b == a;
    } else {
      assert (a + b)[..|a + b| - 1] == a + b[..|b| - 1];
      HitsAppend(a, b[..|b| - 1], query, lower);
    }
  }

  /** A result exists exactly for each visited node matching by name and
      each matching by content, carrying that node's path and index. */
  lemma {:induction false} HitsSpec(es: seq<Entry>, query: string, lower: string -> string)
    ensures forall r :: r in Hits(es, query, lower) <==>
              exists e :: e in es && r.node == e.node && r.path == e.path && r.index == e.index &&
                          (if r.byName then NameHit(e, query, lower) else ContentHit(e, query, lower))
  {
    if es != [] {
      var init := es[..|es| - 1];
      var e := es[|es| - 1];
      HitsSpec(init, query, lower);
      forall r
        ensures r in Hits(es, query, lower) <==>
                exists x :: x in es && r.node == x.node && r.path == x.path && r.index == x.index &&
                            (if r.byName then NameHit(x, query, lower) else ContentHit(x, query, lower))
      {
        if exists x :: x in es && r.node == x.node && r.path == x.path && r.index == x.index &&
                       (if r.byName then NameHit(x, query, lower) else ContentHit(x, query, lower)) {
          var x :| x in es && r.node == x.node && r.path == x.path && r.index == x.index &&
                   (if r.byName then NameHit(x, query, lower) else ContentHit(x, query, lower));
          if x != e {
            assert x in init;
          }
        }
      }
    }
  }

  /** The results for one more sibling: its own matches, then its subtree's. */
  lemma HitsStep(nodes: seq<Node>, path: seq<nat>, i: nat, query: string, lower: string -> string)
    requires i < |nodes|
    ensures Hits(PreOrder(nodes[..i + 1], path), query, lower) ==
            Hits(PreOrder(nodes[..i], path), query, lower) + HitsOf(Entry(path, i, nodes[i]), query, lower) +
            Hits(Below(nodes[i], path + [i]), query, lower)
  {
    var e := Entry(path, i, nodes[i]);
    var before := PreOrder(nodes[..i], path);
    PreOrderStep(nodes, path, i);
    HitsAppend(before, [e], query, lower);
    HitsAppend(before + [e], Below(nodes[i], path + [i]), query, lower);
    assert Hits([e], query, lower) == HitsOf(e, query, lower) by {
      assert [e][..0] == [];
    }
  }

  /** searchInNodes: the forEach pushes each node's matches, then descends
      into `children`. `lower` stands for toLowerCase. */
  method SearchInNodes(nodes: seq<Node>, path: seq<nat>, query: string, lower: string -> string) returns (results: seq<SearchResult>)
    decreases nodes
    ensures results == Hits(PreOrder(nodes, path), query, lower)
  {
    results := [];
    for index := 0 to |nodes|
      invariant results == Hits(PreOrder(nodes[..index], path), query, lower)
    {
      var node := nodes[index];
      var e := Entry(path, index, node);
      if Contains(lower(node.name), query) {
        results := results + [SearchResult(node, path, index, true)];
      }
      if Truthy(node.content) && Contains(lower(node.content.value), query) {
        results := results + [SearchResult(node, path, index, false)];
      }
      assert results == Hits(PreOrder(nodes[..index], path), query, lower) + HitsOf(e, query, lower);
      var sub: seq<SearchResult> := [];
      if node.children.Present? {
        sub := SearchInNodes(node.children.nodes, path + [index], query, lower);
      }
      HitsStep(nodes, path, index, query, lower);
      results := results + sub;
    }
    assert nodes[..|nodes|] == nodes;
  }

  /** searchInKnowledgeBase */
  method SearchInKnowledgeBase(doc: TechData, query: string, lower: string -> string) returns (results: seq<SearchResult>)
    ensures results == Hits(PreOrder(doc.categories, []), query, lower)
  {
    results := SearchInNodes(doc.categories, [], query, lower);
  }
}
