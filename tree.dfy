/** The tree document of the knowledge base (window.techData) and its
    path addressing: a path is a list of sibling indices walked from the root
    `categories` array, following each node's `children`. */
module Tree {
  import opened Util

  datatype NodeType = Category | Technology

  datatype ChecklistItem = ChecklistItem(text: string, completed: bool)

  datatype MediaAsset = MediaAsset(name: string, kind: string, data: string, mimeType: string)

  /** A cross-reference stored in a node's `links`. */
  datatype Link = Link(id: string, name: string, path: seq<int>)

  /** One node of the forest. Every field the code tests for presence is an
      Option; `completed` is a plain flag because an absent flag and `false`
      behave the same everywhere (`!undefined` is `true`). */
  datatype Node = Node(
    id: Option<string>,
    name: string,
    kind: NodeType,
    children: Children,
    completed: bool,
    checklist: Option<seq<ChecklistItem>>,
    content: Option<string>,
    media: Option<seq<MediaAsset>>,
    links: Option<seq<Link>>)

  /** A node's `children`: absent, or an array of nodes. */
  datatype Children = Absent | Present(nodes: seq<Node>)
  {
    /** `node.children || []` */
    function GetOr(d: seq<Node>): seq<Node> {
      if Present? then nodes else d
    }
  }

  /** The document object shared by every manager. */
  class TechData {
    var categories: seq<Node>

    constructor ()
      ensures categories == []
    {
      categories := [];
    }
  }

  /** JavaScript truthiness of an optional string field. */
  predicate Truthy(s: Option<string>) {
    s.Some? && s.value != ""
  }

  /** The outcome of getNodeByPath: null, or an array. The array is attached
      when it is a real `children`/`categories` array of the document, and
      detached when the last step went through a node without `children`,
      where the code substitutes a fresh `[]` that nothing else refers to. */
  datatype Resolution = NotFound | Found(siblings: seq<Node>, attached: bool)

  /** The walk of getNodeByPath from an array, with `attached` telling whether
      that array belongs to the document. */
  function Walk(level: seq<Node>, attached: bool, path: seq<int>): Resolution
    decreases path
  {
    if path == [] then Found(level, attached)
    else if !(0 <= path[0] < |level|) then NotFound
    else Walk(level[path[0]].children.GetOr([]), attached && level[path[0]].children.Present?, path[1..])
  }

  function Resolve(roots: seq<Node>, path: seq<int>): Resolution {
    Walk(roots, true, path)
  }

  predicate Attached(roots: seq<Node>, path: seq<int>) {
    Resolve(roots, path).Found? && Resolve(roots, path).attached
  }

  /** A detached array is always the fresh empty one. */
  lemma {:induction false} WalkDetachedIsEmpty(level: seq<Node>, attached: bool, path: seq<int>)
    requires !attached ==> level == []
    requires Walk(level, attached, path).Found? && !Walk(level, attached, path).attached
    ensures Walk(level, attached, path).siblings == []
    decreases path
  {
    if path != [] {
      var n := level[path[0]];
      WalkDetachedIsEmpty(n.children.GetOr([]), attached && n.children.Present?, path[1..]);
    }
  }

  lemma DetachedIsEmpty(roots: seq<Node>, path: seq<int>)
    requires Resolve(roots, path).Found? && !Resolve(roots, path).attached
    ensures Resolve(roots, path).siblings == []
  {
    WalkDetachedIsEmpty(roots, true, path);
  }

  /** The empty path resolves to the root array itself. */
  lemma ResolveEmptyPath(roots: seq<Node>)
    ensures Resolve(roots, []) == Found(roots, true)
  {
  }

  /** Resolution fails as soon as an index has no element at its level. */
  lemma {:induction false} ResolveOutOfRange(roots: seq<Node>, path: seq<int>, k: nat)
    requires k < |path| && Resolve(roots, path[..k]).Found?
    requires !(0 <= path[k] < |Resolve(roots, path[..k]).siblings|)
    ensures Resolve(roots, path) == NotFound
  {
    WalkOutOfRange(roots, true, path, k);
  }

  lemma {:induction false} WalkOutOfRange(level: seq<Node>, attached: bool, path: seq<int>, k: nat)
    requires k < |path| && Walk(level, attached, path[..k]).Found?
    requires !(0 <= path[k] < |Walk(level, attached, path[..k]).siblings|)
    ensures Walk(level, attached, path) == NotFound
    decreases k
  {
    if k == 0 {
      assert path[..0] == [];
    } else {
      assert path[..k][0] == path[0] && path[..k][1..] == path[1..][..k - 1];
      var n := level[path[0]];
      WalkOutOfRange(n.children.GetOr([]), attached && n.children.Present?, path[1..], k - 1);
    }
  }

  /** Stepping through a node without `children` yields the fresh empty array. */
  lemma ResolveThroughLeaf(roots: seq<Node>, path: seq<int>, i: int)
    requires Resolve(roots, path).Found? && 0 <= i < |Resolve(roots, path).siblings|
    requires Resolve(roots, path).siblings[i].children.Absent?
    ensures Resolve(roots, path + [i]) == Found([], false)
  {
    WalkAppend(roots, true, path, i);
  }

  /** Stepping through a node with `children` yields that array, attached iff the parent is. */
  lemma ResolveThroughParent(roots: seq<Node>, path: seq<int>, i: int)
    requires Resolve(roots, path).Found? && 0 <= i < |Resolve(roots, path).siblings|
    requires Resolve(roots, path).siblings[i].children.Present?
    ensures Resolve(roots, path + [i]) ==
            Found(Resolve(roots, path).siblings[i].children.nodes, Resolve(roots, path).attached)
  {
    WalkAppend(roots, true, path, i);
  }

  lemma {:induction false} WalkAppend(level: seq<Node>, attached: bool, path: seq<int>, i: int)
    requires Walk(level, attached, path).Found?
    ensures var r := Walk(level, attached, path);
            Walk(level, attached, path + [i]) ==
              if 0 <= i < |r.siblings|
              then Found(r.siblings[i].children.GetOr([]), r.attached && r.siblings[i].children.Present?)
              else NotFound
    decreases path
  {
    if path == [] {
      assert [] + [i] == [i];
      assert [i][1..] == [];
    } else {
      assert (path + [i])[0] == path[0] && (path + [i])[1..] == path[1..] + [i];
      var n := level[path[0]];
      WalkAppend(n.children.GetOr([]), attached && n.children.Present?, path[1..], i);
    }
  }

  lemma {:induction false} WalkStaysDetached(level: seq<Node>, path: seq<int>)
    ensures Walk(level, false, path).Found? ==> !Walk(level, false, path).attached
    decreases path
  {
    if path != [] && 0 <= path[0] < |level| {
      WalkStaysDetached(level[path[0]].children.GetOr([]), path[1..]);
    }
  }

  /** An attached path steps through a node that has `children`, and the rest is attached below it. */
  lemma AttachedStep(roots: seq<Node>, path: seq<int>)
    requires Attached(roots, path) && path != []
    ensures 0 <= path[0] < |roots| && roots[path[0]].children.Present?
    ensures Attached(roots[path[0]].children.nodes, path[1..])
  {
    var n := roots[path[0]];
    if n.children.Absent? {
      WalkStaysDetached([], path[1..]);
    }
  }

  /** The document with the attached array at `path` replaced by `sibs`:
      what an in-place push, splice or field assignment on that array does. */
  function ReplaceAt(roots: seq<Node>, path: seq<int>, sibs: seq<Node>): seq<Node>
    requires Attached(roots, path)
    decreases path
  {
    if path == [] then sibs
    else
      AttachedStep(roots, path);
      var n := roots[path[0]];
      roots[path[0] := n.(children := Present(ReplaceAt(n.children.nodes, path[1..], sibs)))]
  }

  /** After the write, the path still resolves, now to the new array. */
  lemma {:induction false} ResolveReplaceAt(roots: seq<Node>, path: seq<int>, sibs: seq<Node>)
    requires Attached(roots, path)
    ensures Resolve(ReplaceAt(roots, path, sibs), path) == Found(sibs, true)
    decreases path
  {
    if path != [] {
      AttachedStep(roots, path);
      ResolveReplaceAt(roots[path[0]].children.nodes, path[1..], sibs);
    }
  }

  /** Two paths diverge when they pick different siblings at some common depth. */
  predicate Diverge(p: seq<int>, q: seq<int>) {
    exists k :: 0 <= k < |p| && k < |q| && p[k] != q[k]
  }

  /** Arrays reached along any path that leaves `path` are untouched by the write. */
  lemma {:induction false} ReplaceAtFrame(roots: seq<Node>, path: seq<int>, sibs: seq<Node>, q: seq<int>)
    requires Attached(roots, path) && Diverge(path, q)
    ensures Resolve(ReplaceAt(roots, path, sibs), q) == Resolve(roots, q)
    decreases path
  {
    var k :| 0 <= k < |path| && k < |q| && path[k] != q[k];
    AttachedStep(roots, path);
    if path[0] != q[0] {
      var r := ReplaceAt(roots, path, sibs);
      assert |r| == |roots|;
      if 0 <= q[0] < |roots| {
        assert r[q[0]] == roots[q[0]];
      }
    } else {
      assert k > 0 && path[1..][k - 1] != q[1..][k - 1];
      var n := roots[path[0]];
      ReplaceAtFrame(n.children.nodes, path[1..], sibs, q[1..]);
    }
  }

  /** Along the path itself only the `children` of the node stepped through change. */
  lemma {:induction false} ReplaceAtAncestors(roots: seq<Node>, path: seq<int>, sibs: seq<Node>, j: nat)
    requires Attached(roots, path) && j < |path|
    ensures Attached(roots, path[..j])
    ensures var before := Resolve(roots, path[..j]).siblings;
            var after := Resolve(ReplaceAt(roots, path, sibs), path[..j]);
            after.Found? && after.attached && |after.siblings| == |before| && 0 <= path[j] < |before| &&
            (forall i :: 0 <= i < |before| && i != path[j] ==> after.siblings[i] == before[i]) &&
            after.siblings[path[j]] == before[path[j]].(children := after.siblings[path[j]].children)
    decreases path
  {
    AttachedStep(roots, path);
    var n := roots[path[0]];
    if j == 0 {
      assert path[..0] == [];
    } else {
      assert path[..j][0] == path[0] && path[..j][1..] == path[1..][..j - 1];
      ReplaceAtAncestors(n.children.nodes, path[1..], sibs, j - 1);
    }
  }

  /** Writing back the array that is already there changes nothing. */
  lemma {:induction false} ReplaceAtSame(roots: seq<Node>, path: seq<int>)
    requires Attached(roots, path)
    ensures ReplaceAt(roots, path, Resolve(roots, path).siblings) == roots
    decreases path
  {
    if path != [] {
      AttachedStep(roots, path);
      var n := roots[path[0]];
      ReplaceAtSame(n.children.nodes, path[1..]);
      assert n.(children := Present(n.children.nodes)) == n;
    }
  }

  /** A second write at the same path supersedes the first. */
  lemma {:induction false} ReplaceAtTwice(roots: seq<Node>, path: seq<int>, s1: seq<Node>, s2: seq<Node>)
    requires Attached(roots, path)
    ensures Attached(ReplaceAt(roots, path, s1), path)
    ensures ReplaceAt(ReplaceAt(roots, path, s1), path, s2) == ReplaceAt(roots, path, s2)
    decreases path
  {
    ResolveReplaceAt(roots, path, s1);
    if path != [] {
      AttachedStep(roots, path);
      var n := roots[path[0]];
      ReplaceAtTwice(n.children.nodes, path[1..], s1, s2);
    }
  }

  /** getNodeAtIndex: element `index` of the resolved array, or nothing. */
  function NodeAt(roots: seq<Node>, path: seq<int>, index: int): Option<Node> {
    match Resolve(roots, path)
    case NotFound => None
    case Found(s, _) => if 0 <= index < |s| then Some(s[index]) else None
  }

  /** A node that exists sits in an attached array. */
  lemma NodeAtAttached(roots: seq<Node>, path: seq<int>, index: int)
    requires NodeAt(roots, path, index).Some?
    ensures Attached(roots, path) && 0 <= index < |Resolve(roots, path).siblings|
  {
    if !Resolve(roots, path).attached {
      DetachedIsEmpty(roots, path);
    }
  }

  /** The document with node (path, index) replaced by `n`. */
  function SetNodeAt(roots: seq<Node>, path: seq<int>, index: int, n: Node): seq<Node>
    requires NodeAt(roots, path, index).Some?
  {
    NodeAtAttached(roots, path, index);
    var s := Resolve(roots, path).siblings;
    ReplaceAt(roots, path, s[index := n])
  }

  /** Replacing one node: it reads back, its siblings are kept, and every
      array off the path is unchanged. */
  lemma SetNodeAtSpec(roots: seq<Node>, path: seq<int>, index: int, n: Node)
    requires NodeAt(roots, path, index).Some?
    ensures var r := SetNodeAt(roots, path, index, n);
            var s := Resolve(roots, path).siblings;
            NodeAt(r, path, index) == Some(n) &&
            Resolve(r, path) == Found(s[index := n], true) &&
            (forall q :: Diverge(path, q) ==> Resolve(r, q) == Resolve(roots, q))
  {
    NodeAtAttached(roots, path, index);
    var s := Resolve(roots, path).siblings;
    ResolveReplaceAt(roots, path, s[index := n]);
    forall q | Diverge(path, q)
      ensures Resolve(SetNodeAt(roots, path, index, n), q) == Resolve(roots, q)
    {
      ReplaceAtFrame(roots, path, s[index := n], q);
    }
  }

  /** Writing a node back unchanged is the identity, and a second write supersedes the first. */
  lemma SetNodeAtAlgebra(roots: seq<Node>, path: seq<int>, index: int, n1: Node, n2: Node)
    requires NodeAt(roots, path, index).Some?
    ensures SetNodeAt(roots, path, index, NodeAt(roots, path, index).value) == roots
    ensures NodeAt(SetNodeAt(roots, path, index, n1), path, index).Some?
    ensures SetNodeAt(SetNodeAt(roots, path, index, n1), path, index, n2) == SetNodeAt(roots, path, index, n2)
  {
    NodeAtAttached(roots, path, index);
    var s := Resolve(roots, path).siblings;
    assert s[index := s[index]] == s;
    ReplaceAtSame(roots, path);
    ResolveReplaceAt(roots, path, s[index := n1]);
    ReplaceAtTwice(roots, path, s[index := n1], s[index := n1][index := n2]);
    assert s[index := n1][index := n2] == s[index := n2];
  }
}
