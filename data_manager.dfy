/** dataManager: path resolution over the shared document and the structural
    edits (add, delete, rename, toggle) it applies in place. User input
    (text fields, prompt and confirm answers) and the generated ids are
    parameters; persistence and re-rendering are not part of this model. */
module DataManager {
  import opened Util
  import opened Tree

  /** getNodeByPath: the loop that reassigns `currentNode` step by step. */
  method GetNodeByPath(doc: TechData, path: seq<int>) returns (r: Resolution)
    ensures r == Resolve(doc.categories, path)
    ensures r.Found? && !r.attached ==> r.siblings == []
  {
    var current := doc.categories;
    var attached := true;
    var i := 0;
    while i < |path|
      invariant 0 <= i <= |path|
      invariant !attached ==> current == []
      invariant Walk(doc.categories, true, path) == Walk(current, attached, path[i..])
    {
      var index := path[i];
      assert path[i..][0] == index && path[i..][1..] == path[i + 1..];
      if !(0 <= index < |current|) {
        return NotFound;
      }
      var node := current[index];
      attached := attached && node.children.Present?;
      current := node.children.GetOr([]);
      i := i + 1;
    }
    assert path[i..] == [];
    r := Found(current, attached);
  }

  /** getNodeAtIndex */
  method GetNodeAtIndex(doc: TechData, path: seq<int>, index: int) returns (r: Option<Node>)
    ensures r == NodeAt(doc.categories, path, index)
    ensures r.Some? ==> Attached(doc.categories, path) &&
                        0 <= index < |Resolve(doc.categories, path).siblings| &&
                        r.value == Resolve(doc.categories, path).siblings[index]
  {
    var parent := GetNodeByPath(doc, path);
    if parent.Found? && 0 <= index < |parent.siblings| {
      r := Some(parent.siblings[index]);
    } else {
      r := None;
    }
  }

  function NewCategory(id: string, name: string): Node {
    Node(Some(id), name, Category, Present([]), false, None, None, None, None)
  }

  function NewTechnology(id: string, name: string): Node {
    Node(Some(id), name, Technology, Absent, false, None, None, None, None)
  }

  /** The document after toggleTech(path, index). */
  function TechToggled(roots: seq<Node>, path: seq<int>, index: int): seq<Node> {
    match NodeAt(roots, path, index)
    case None => roots
    case Some(n) => SetNodeAt(roots, path, index, n.(completed := !n.completed))
  }

  /** The document after a confirmed deleteNode/deleteTechnology(path, index):
      splice(index, 1) on the resolved array. */
  function NodeDeleted(roots: seq<Node>, path: seq<int>, index: int): seq<Node> {
    match Resolve(roots, path)
    case Found(s, true) => ReplaceAt(roots, path, SpliceOne(s, index))
    case _ => roots
  }

  /** The document after pushing `n` onto the array the path resolves to. */
  function NodeAppended(roots: seq<Node>, path: seq<int>, n: Node): seq<Node> {
    match Resolve(roots, path)
    case Found(s, true) => ReplaceAt(roots, path, s + [n])
    case _ => roots
  }

  /** The accepted new name of editNode/editTechnology: the trimmed prompt answer, if non-blank. */
  function AcceptedName(answer: Option<string>): Option<string> {
    if answer.Some? && answer.value != "" && Trim(answer.value) != "" then Some(Trim(answer.value)) else None
  }

  /** The document after editNode/editTechnology(path, index) with the given prompt answer. */
  function NodeRenamed(roots: seq<Node>, path: seq<int>, index: int, answer: Option<string>): seq<Node> {
    match NodeAt(roots, path, index)
    case None => roots
    case Some(n) =>
      match AcceptedName(answer)
      case None => roots
      case Some(name) => SetNodeAt(roots, path, index, n.(name := name))
  }

  /** toggleTech */
  method ToggleTech(doc: TechData, path: seq<int>, index: int)
    modifies doc
    ensures doc.categories == TechToggled(old(doc.categories), path, index)
  {
    var parent := GetNodeByPath(doc, path);
    if parent.Found? && 0 <= index < |parent.siblings| {
      var n := parent.siblings[index];
      doc.categories := ReplaceAt(doc.categories, path, parent.siblings[index := n.(completed := !n.completed)]);
    }
  }

  /** deleteNode: `confirmed` is the answer to confirm('Delete?'). */
  method DeleteNode(doc: TechData, path: seq<int>, index: int, confirmed: bool)
    modifies doc
    ensures doc.categories == if confirmed then NodeDeleted(old(doc.categories), path, index) else old(doc.categories)
  {
    if confirmed {
      var parent := GetNodeByPath(doc, path);
      if parent.Found? {
        if parent.attached {
          doc.categories := ReplaceAt(doc.categories, path, SpliceOne(parent.siblings, index));
        }
      }
    }
  }

  /** deleteTechnology: the same splice as deleteNode, behind its own confirmation. */
  method DeleteTechnology(doc: TechData, path: seq<int>, index: int, confirmed: bool)
    modifies doc
    ensures doc.categories == if confirmed then NodeDeleted(old(doc.categories), path, index) else old(doc.categories)
  {
    DeleteNode(doc, path, index, confirmed);
  }

  /** addCategory: `input` is the text field, `freshId` the generated 'cat_' id. */
  method AddCategory(doc: TechData, input: string, freshId: string)
    modifies doc
    ensures Trim(input) == "" ==> doc.categories == old(doc.categories)
    ensures Trim(input) != "" ==> doc.categories == old(doc.categories) + [NewCategory(freshId, Trim(input))]
  {
    var name := Trim(input);
    if name != "" {
      doc.categories := doc.categories + [NewCategory(freshId, name)];
    }
  }

  /** The push shared by addNode and addTechnology: into the array the selected
      parent's path resolves to (a detached array swallows it). */
  method PushAt(doc: TechData, path: seq<int>, n: Node)
    modifies doc
    ensures doc.categories == NodeAppended(old(doc.categories), path, n)
  {
    var parent := GetNodeByPath(doc, path);
    if parent.Found? && parent.attached {
      doc.categories := ReplaceAt(doc.categories, path, parent.siblings + [n]);
    }
  }

  /** addNode: `selected` is the path of the selected parent entry, if any
      (the empty path stands for the root). */
  method AddNode(doc: TechData, input: string, selected: Option<seq<int>>, freshId: string)
    modifies doc
    ensures Trim(input) == "" || selected.None? ==> doc.categories == old(doc.categories)
    ensures Trim(input) != "" && selected.Some? ==>
              doc.categories == NodeAppended(old(doc.categories), selected.value, NewCategory(freshId, Trim(input)))
  {
    var name := Trim(input);
    if name != "" && selected.Some? {
      PushAt(doc, selected.value, NewCategory(freshId, name));
    }
  }

  /** addTechnology */
  method AddTechnology(doc: TechData, input: string, selected: Option<seq<int>>, freshId: string)
    modifies doc
    ensures Trim(input) == "" || selected.None? ==> doc.categories == old(doc.categories)
    ensures Trim(input) != "" && selected.Some? ==>
              doc.categories == NodeAppended(old(doc.categories), selected.value, NewTechnology(freshId, Trim(input)))
  {
    var name := Trim(input);
    if name != "" && selected.Some? {
      PushAt(doc, selected.value, NewTechnology(freshId, name));
    }
  }

  /** editNode: `answer` is what prompt() returned (None when cancelled). */
  method EditNode(doc: TechData, path: seq<int>, index: int, answer: Option<string>)
    modifies doc
    ensures doc.categories == NodeRenamed(old(doc.categories), path, index, answer)
  {
    var node := GetNodeAtIndex(doc, path, index);
    if node.None? {
      return;
    }
    if answer.Some? && answer.value != "" && Trim(answer.value) != "" {
      var s := Resolve(doc.categories, path).siblings;
      doc.categories := ReplaceAt(doc.categories, path, s[index := node.value.(name := Trim(answer.value))]);
    }
  }

  /** editTechnology: the same rename as editNode. */
  method EditTechnology(doc: TechData, path: seq<int>, index: int, answer: Option<string>)
    modifies doc
    ensures doc.categories == NodeRenamed(old(doc.categories), path, index, answer)
  {
    EditNode(doc, path, index, answer);
  }

  // ---------------------------------------------------------------------------
  // What the edits do, stated against path resolution.

  /** toggleTech flips `completed` of exactly the node at (path, index) when it
      exists: its siblings and every array off the path are unchanged;
      otherwise the document is unchanged. */
  lemma TechToggledSpec(roots: seq<Node>, path: seq<int>, index: int)
    ensures var r := TechToggled(roots, path, index);
            match NodeAt(roots, path, index)
            case None => r == roots
            case Some(n) =>
              Resolve(r, path) == Found(Resolve(roots, path).siblings[index := n.(completed := !n.completed)], true) &&
              NodeAt(r, path, index).value.completed == !n.completed &&
              (forall q :: Diverge(path, q) ==> Resolve(r, q) == Resolve(roots, q))
  {
    if NodeAt(roots, path, index).Some? {
      var n := NodeAt(roots, path, index).value;
      SetNodeAtSpec(roots, path, index, n.(completed := !n.completed));
    }
  }

  /** Toggling the same node twice restores the document. */
  lemma TechToggledTwice(roots: seq<Node>, path: seq<int>, index: int)
    ensures TechToggled(TechToggled(roots, path, index), path, index) == roots
  {
    if NodeAt(roots, path, index).Some? {
      var n := NodeAt(roots, path, index).value;
      var n1 := n.(completed := !n.completed);
      SetNodeAtSpec(roots, path, index, n1);
      SetNodeAtAlgebra(roots, path, index, n1, n1.(completed := !n1.completed));
      assert n1.(completed := !n1.completed) == n;
    }
  }

  /** A confirmed delete removes exactly element `index` (splice's relative
      index: a negative one counts from the end) of an attached array; later
      siblings shift down, every array off the path is unchanged, and a
      detached, unresolved or out-of-range target changes nothing. */
  lemma NodeDeletedSpec(roots: seq<Node>, path: seq<int>, index: int)
    ensures var r := NodeDeleted(roots, path, index);
            match Resolve(roots, path)
            case Found(s, true) =>
              var k := RelativeIndex(index, |s|);
              (k < |s| ==> Resolve(r, path) == Found(s[..k] + s[k + 1..], true)) &&
              (k == |s| ==> r == roots) &&
              (forall q :: Diverge(path, q) ==> Resolve(r, q) == Resolve(roots, q))
            case _ => r == roots
  {
    match Resolve(roots, path)
    case Found(s, true) =>
      ResolveReplaceAt(roots, path, SpliceOne(s, index));
      ReplaceAtSame(roots, path);
      forall q | Diverge(path, q)
        ensures Resolve(NodeDeleted(roots, path, index), q) == Resolve(roots, q)
      {
        ReplaceAtFrame(roots, path, SpliceOne(s, index), q);
      }
    case _ =>
  }

  /** A push lands at the end of an attached array and nowhere else; an
      unresolved path or a detached array leaves the document unchanged. */
  lemma NodeAppendedSpec(roots: seq<Node>, path: seq<int>, n: Node)
    ensures var r := NodeAppended(roots, path, n);
            match Resolve(roots, path)
            case Found(s, true) =>
              Resolve(r, path) == Found(s + [n], true) &&
              (forall q :: Diverge(path, q) ==> Resolve(r, q) == Resolve(roots, q))
            case _ => r == roots
  {
    match Resolve(roots, path)
    case Found(s, true) =>
      ResolveReplaceAt(roots, path, s + [n]);
      forall q | Diverge(path, q)
        ensures Resolve(NodeAppended(roots, path, n), q) == Resolve(roots, q)
      {
        ReplaceAtFrame(roots, path, s + [n], q);
      }
    case _ =>
  }

  /** Selecting a technology as the parent of a new node resolves to the
      fresh empty array, so the new node is lost. */
  lemma AppendUnderLeafIsLost(roots: seq<Node>, path: seq<int>, i: int, n: Node)
    requires Resolve(roots, path).Found? && 0 <= i < |Resolve(roots, path).siblings|
    requires Resolve(roots, path).siblings[i].children.Absent?
    ensures NodeAppended(roots, path + [i], n) == roots
  {
    ResolveThroughLeaf(roots, path, i);
  }

  /** A rename sets `name` to the trimmed, non-blank answer and keeps every
      other field, every sibling and every array off the path; a blank or
      cancelled answer changes nothing. */
  lemma NodeRenamedSpec(roots: seq<Node>, path: seq<int>, index: int, answer: Option<string>)
    ensures var r := NodeRenamed(roots, path, index, answer);
            match NodeAt(roots, path, index)
            case None => r == roots
            case Some(n) =>
              if answer.None? || Trim(answer.value) == "" then r == roots
              else
                NodeAt(r, path, index) == Some(n.(name := Trim(answer.value))) &&
                Resolve(r, path) == Found(Resolve(roots, path).siblings[index := n.(name := Trim(answer.value))], true) &&
                (forall q :: Diverge(path, q) ==> Resolve(r, q) == Resolve(roots, q))
  {
    if NodeAt(roots, path, index).Some? && answer.Some? && Trim(answer.value) != "" {
      var n := NodeAt(roots, path, index).value;
      assert answer.value != "";
      SetNodeAtSpec(roots, path, index, n.(name := Trim(answer.value)));
    }
  }
}
