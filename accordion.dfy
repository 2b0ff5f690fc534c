/** accordionManager: the progress and status shown for every node, and the
    expansion state keyed by joined paths. Element construction is not
    modelled; progress is an exact real where the page computes a float. */
module Accordion {
  import opened Util
  import opened Tree
  import ChecklistManager

  datatype NodeProgress = NodeProgress(progress: real, hasChecklistItems: bool)

  function ChildCount(n: Node): nat {
    if n.children.Present? then |n.children.nodes| else 0
  }

  /** calculateNodeProgress, as a value: a technology with checklist items
      reports the completed share, one without reports its `completed` flag;
      a category reports the mean of its children (0 when it has none). */
  function ProgressOf(n: Node): (p: NodeProgress)
    decreases n, ChildCount(n) + 1
    ensures 0.0 <= p.progress <= 100.0
  {
    if n.kind == Technology then
      if n.checklist.Some? && |n.checklist.value| > 0 then
        var items := n.checklist.value;
        NodeProgress(Share(ChecklistManager.CountCompleted(items), |items|), true)
      else NodeProgress(if n.completed then 100.0 else 0.0, false)
    else if n.children.Absent? || |n.children.nodes| == 0 then NodeProgress(0.0, false)
    else
      var k := |n.children.nodes|;
      var (total, any) := ChildrenSum(n, k);
      NodeProgress(Mean(total, k), any)
  }

  /** The accumulators after the first k children: the sum of their progress
      and whether any has checklist items. */
  function ChildrenSum(n: Node, k: nat): (r: (real, bool))
    requires n.children.Present? && k <= |n.children.nodes|
    decreases n, k
    ensures 0.0 <= r.0 <= 100.0 * k as real
  {
    if k == 0 then (0.0, false)
    else
      var (total, any) := ChildrenSum(n, k - 1);
      var p := ProgressOf(n.children.nodes[k - 1]);
      (total + p.progress, any || p.hasChecklistItems)
  }

  /** `(completed / total) * 100` for a non-empty checklist. */
  function Share(c: nat, t: nat): (r: real)
    requires 0 < t && c <= t
    ensures 0.0 <= r <= 100.0
    ensures r == 100.0 <==> c == t
    ensures r == 0.0 <==> c == 0
  {
    assert c as real / t as real <= 1.0 by {
      assert c as real <= t as real;
    }
    (c as real / t as real) * 100.0
  }

  /** `totalProgress / childCount` over k children each within 0..100. */
  function Mean(total: real, k: nat): (r: real)
    requires k > 0 && 0.0 <= total <= 100.0 * k as real
    ensures 0.0 <= r <= 100.0
    ensures r == 100.0 <==> total == 100.0 * k as real
    ensures r == 0.0 <==> total == 0.0
  {
    total / k as real
  }

  /** calculateNodeProgress: the forEach over the children accumulates the
      total, the count and the flag. */
  method CalculateNodeProgress(node: Node) returns (p: NodeProgress)
    decreases node
    ensures p == ProgressOf(node)
  {
    if node.kind == Technology {
      if node.checklist.Some? && |node.checklist.value| > 0 {
        var items := node.checklist.value;
        var completed := ChecklistManager.CountCompleted(items);
        return NodeProgress(Share(completed, |items|), true);
      }
      return NodeProgress(if node.completed then 100.0 else 0.0, false);
    }
    if node.children.Absent? || |node.children.nodes| == 0 {
      return NodeProgress(0.0, false);
    }
    var children := node.children.nodes;
    var totalProgress := 0.0;
    var childCount := 0;
    var hasChecklistItems := false;
    while childCount < |children|
      invariant 0 <= childCount <= |children|
      invariant (totalProgress, hasChecklistItems) == ChildrenSum(node, childCount)
    {
      var childProgress := CalculateNodeProgress(children[childCount]);
      totalProgress := totalProgress + childProgress.progress;
      childCount := childCount + 1;
      if childProgress.hasChecklistItems {
        hasChecklistItems := true;
      }
    }
    p := NodeProgress(Mean(totalProgress, childCount), hasChecklistItems);
  }

  /** A category with children reports the mean of their progress and has
      checklist items exactly when some child has. */
  lemma ChildrenSumSpec(n: Node, k: nat)
    requires n.children.Present? && k <= |n.children.nodes|
    ensures ChildrenSum(n, k).1 <==> exists i :: 0 <= i < k && ProgressOf(n.children.nodes[i]).hasChecklistItems
    ensures ChildrenSum(n, k).0 == 100.0 * k as real <==>
              forall i :: 0 <= i < k ==> ProgressOf(n.children.nodes[i]).progress == 100.0
    ensures ChildrenSum(n, k).0 == 0.0 <==> forall i :: 0 <= i < k ==> ProgressOf(n.children.nodes[i]).progress == 0.0
  {
    ChildrenSumFlag(n, k);
    ChildrenSumFull(n, k);
    ChildrenSumZero(n, k);
  }

  lemma {:induction false} ChildrenSumFlag(n: Node, k: nat)
    requires n.children.Present? && k <= |n.children.nodes|
    ensures ChildrenSum(n, k).1 <==> exists i :: 0 <= i < k && ProgressOf(n.children.nodes[i]).hasChecklistItems
  {
    if k > 0 {
      ChildrenSumFlag(n, k - 1);
    }
  }

  lemma {:induction false} ChildrenSumFull(n: Node, k: nat)
    requires n.children.Present? && k <= |n.children.nodes|
    ensures ChildrenSum(n, k).0 == 100.0 * k as real <==>
              forall i :: 0 <= i < k ==> ProgressOf(n.children.nodes[i]).progress == 100.0
  {
    if k > 0 {
      ChildrenSumFull(n, k - 1);
      var total := ChildrenSum(n, k - 1).0;
      assert total <= 100.0 * (k - 1) as real;
    }
  }

  lemma {:induction false} ChildrenSumZero(n: Node, k: nat)
    requires n.children.Present? && k <= |n.children.nodes|
    ensures ChildrenSum(n, k).0 == 0.0 <==> forall i :: 0 <= i < k ==> ProgressOf(n.children.nodes[i]).progress == 0.0
  {
    if k > 0 {
      ChildrenSumZero(n, k - 1);
    }
  }

  /** A technology reports 100 exactly when it is done: every checklist
      item when it has items, its own flag otherwise. */
  lemma TechnologyProgressFull(n: Node)
    requires n.kind == Technology
    ensures ProgressOf(n).progress == 100.0 <==>
              if n.checklist.Some? && |n.checklist.value| > 0 then
                forall j :: 0 <= j < |n.checklist.value| ==> n.checklist.value[j].completed
              else n.completed
  {
  }

  /** A category reports 100 exactly when it has children and every one of
      them reports 100; it reports 0 exactly when it has none or all report
      0; it has checklist items exactly when some child has. */
  lemma CategoryProgressSpec(n: Node)
    requires n.kind == Category
    ensures ProgressOf(n).progress == 100.0 <==>
              n.children.Present? && |n.children.nodes| > 0 &&
              forall i :: 0 <= i < |n.children.nodes| ==> ProgressOf(n.children.nodes[i]).progress == 100.0
    ensures ProgressOf(n).progress == 0.0 <==>
              n.children.Absent? || forall i :: 0 <= i < |n.children.nodes| ==> ProgressOf(n.children.nodes[i]).progress == 0.0
    ensures ProgressOf(n).hasChecklistItems <==>
              n.children.Present? && exists i :: 0 <= i < |n.children.nodes| && ProgressOf(n.children.nodes[i]).hasChecklistItems
  {
    if n.children.Present? && |n.children.nodes| > 0 {
      ChildrenSumSpec(n, |n.children.nodes|);
    }
  }

  // ---------------------------------------------------------------------------
  // Status labels.

  datatype Status = Planned | InProgress | Completed

  /** The status classification of buildAccordion. */
  function StatusOf(n: Node, p: NodeProgress): Status {
    if n.kind == Technology && !p.hasChecklistItems then (if n.completed then Completed else Planned)
    else if p.progress == 0.0 then Planned
    else if p.progress == 100.0 then Completed
    else InProgress
  }

  /** The classification by progress alone. */
  function Classify(progress: real): Status {
    if progress == 0.0 then Planned else if progress == 100.0 then Completed else InProgress
  }

  /** The technology special case agrees with classifying its progress:
      every node's status is what its progress alone says. */
  lemma StatusMatchesProgress(n: Node)
    ensures StatusOf(n, ProgressOf(n)) == Classify(ProgressOf(n).progress)
  {
  }

  // ---------------------------------------------------------------------------
  // Expansion state.

  /** The key of a rendered node: its path joined with '-'. */
  function PathKey(path: seq<nat>): string {
    JoinNats(path, '-')
  }

  /** The key of a technology's inline checklist: the parent path joined
      with '-', then '-' and the index (so "-0" at the top level). */
  function ChecklistKey(path: seq<nat>, index: nat): string {
    JoinNats(path, '-') + "-" + NatToString(index)
  }

  /** Within one technology list the checklist keys of different items
      differ; at the top level the key is '-' followed by the index. */
  lemma ChecklistKeyInjective(path: seq<nat>, i: nat, j: nat)
    ensures ChecklistKey(path, i) == ChecklistKey(path, j) <==> i == j
    ensures ChecklistKey([], i) == "-" + NatToString(i)
  {
    var prefix := JoinNats(path, '-') + "-";
    assert ChecklistKey(path, i) == prefix + NatToString(i);
    assert ChecklistKey(path, j) == prefix + NatToString(j);
    if ChecklistKey(path, i) == ChecklistKey(path, j) {
      assert NatToString(i) == ChecklistKey(path, i)[|prefix|..];
      NatToStringInjective(i, j);
    }
    assert JoinNats([], '-') == "";
  }

  /** The paths buildAccordion visits, in its order: each node, then the
      subtree of a node with non-empty children. */
  function Rendered(nodes: seq<Node>, path: seq<nat>): seq<seq<nat>>
    decreases nodes
  {
    if nodes == [] then []
    else
      var i := |nodes| - 1;
      Rendered(nodes[..i], path) + [path + [i]] + RenderedBelow(nodes[i], path + [i])
  }

  /** The paths visited below one node: none unless it has non-empty children. */
  function RenderedBelow(node: Node, path: seq<nat>): seq<seq<nat>>
    decreases node, 0
  {
    if node.children.Present? && |node.children.nodes| > 0 then Rendered(node.children.nodes, path) else []
  }

  lemma RenderedStep(nodes: seq<Node>, path: seq<nat>, i: nat)
    requires i < |nodes|
    ensures Rendered(nodes[..i + 1], path) == Rendered(nodes[..i], path) + [path + [i]] + RenderedBelow(nodes[i], path + [i])
  {
    assert nodes[..i + 1][..i] == nodes[..i];
  }

  /** The expansion map after visiting `paths`: a key seen for the first
      time is expanded exactly at the top level. */
  function WithDefaults(m: map<string, bool>, paths: seq<seq<nat>>): map<string, bool> {
    if paths == [] then m
    else
      var acc := WithDefaults(m, paths[..|paths| - 1]);
      var p := paths[|paths| - 1];
      if PathKey(p) in acc then acc else acc[PathKey(p) := |p| == 1]
  }

  lemma {:induction false} WithDefaultsAppend(m: map<string, bool>, ps: seq<seq<nat>>, qs: seq<seq<nat>>)
    ensures WithDefaults(m, ps + qs) == WithDefaults(WithDefaults(m, ps), qs)
  {
    if qs != [] {
      assert (ps + qs)[..|ps + qs| - 1] == ps + qs[..|qs| - 1];
      WithDefaultsAppend(m, ps, qs[..|qs| - 1]);
    } else {
      assert ps + qs == ps;
    }
  }

  lemma WithDefaultsOne(m: map<string, bool>, p: seq<nat>)
    ensures WithDefaults(m, [p]) == if PathKey(p) in m then m else m[PathKey(p) := |p| == 1]
  {
    assert [p][..0] == [];
  }

  /** Defaulting over one more sibling: its own key, then its subtree. */
  lemma WithDefaultsStep(m: map<string, bool>, nodes: seq<Node>, path: seq<nat>, i: nat,
                         visited: map<string, bool>, after: map<string, bool>)
    requires i < |nodes|
    requires visited == WithDefaults(m, Rendered(nodes[..i], path))
    requires after == WithDefaults(WithDefaults(visited, [path + [i]]), RenderedBelow(nodes[i], path + [i]))
    ensures after == WithDefaults(m, Rendered(nodes[..i + 1], path))
  {
    var visited := Rendered(nodes[..i], path);
    RenderedStep(nodes, path, i);
    WithDefaultsAppend(m, visited, [path + [i]]);
    WithDefaultsAppend(m, visited + [path + [i]], RenderedBelow(nodes[i], path + [i]));
  }

  /** Defaulting keeps every stored value, stores a value for every visited
      path, and adds nothing else. */
  lemma WithDefaultsSpec(m: map<string, bool>, paths: seq<seq<nat>>)
    ensures var r := WithDefaults(m, paths);
            (forall k :: k in m ==> k in r && r[k] == m[k]) &&
            (forall j :: 0 <= j < |paths| ==> PathKey(paths[j]) in r) &&
            (forall k :: k in r && k !in m ==> exists j :: 0 <= j < |paths| && k == PathKey(paths[j]) && r[k] == (|paths[j]| == 1))
  {
    WithDefaultsKeeps(m, paths);
    WithDefaultsCovers(m, paths);
    WithDefaultsOnlyVisited(m, paths);
  }

  lemma {:induction false} WithDefaultsKeeps(m: map<string, bool>, paths: seq<seq<nat>>)
    ensures var r := WithDefaults(m, paths);
            forall k :: k in m ==> k in r && r[k] == m[k]
  {
    if paths != [] {
      WithDefaultsKeeps(m, paths[..|paths| - 1]);
    }
  }

  lemma {:induction false} WithDefaultsCovers(m: map<string, bool>, paths: seq<seq<nat>>)
    ensures var r := WithDefaults(m, paths);
            forall j :: 0 <= j < |paths| ==> PathKey(paths[j]) in r
  {
    if paths != [] {
      var prefix := paths[..|paths| - 1];
      WithDefaultsCovers(m, prefix);
      var acc := WithDefaults(m, prefix);
      var r := WithDefaults(m, paths);
      assert acc.Keys <= r.Keys;
      forall j | 0 <= j < |paths| - 1
        ensures PathKey(paths[j]) in r
      {
        assert paths[j] == prefix[j];
      }
    }
  }

  lemma {:induction false} WithDefaultsOnlyVisited(m: map<string, bool>, paths: seq<seq<nat>>)
    ensures var r := WithDefaults(m, paths);
            forall k :: k in r && k !in m ==> exists j :: 0 <= j < |paths| && k == PathKey(paths[j]) && r[k] == (|paths[j]| == 1)
  {
    if paths != [] {
      var prefix := paths[..|paths| - 1];
      WithDefaultsOnlyVisited(m, prefix);
      var acc := WithDefaults(m, prefix);
      var r := WithDefaults(m, paths);
      forall k | k in r && k !in m
        ensures exists j :: 0 <= j < |paths| && k == PathKey(paths[j]) && r[k] == (|paths[j]| == 1)
      {
        if k in acc {
          var j :| 0 <= j < |prefix| && k == PathKey(prefix[j]) && acc[k] == (|prefix[j]| == 1);
          assert paths[j] == prefix[j] && r[k] == acc[k];
        } else {
          assert k == PathKey(paths[|paths| - 1]);
        }
      }
    }
  }

  /** A default for a fresh key is "expanded" exactly when the key has no '-':
      only top-level keys are a single number. */
  lemma DefaultByKey(p: seq<nat>)
    requires |p| >= 1
    ensures (|p| == 1) <==> '-' !in PathKey(p)
  {
    JoinNatsSeparator(p, '-');
  }

  /** The expandedState / checklistExpandedState maps. */
  class AccordionState {
    var expandedState: map<string, bool>
    var checklistExpandedState: map<string, bool>

    constructor ()
      ensures expandedState == map[] && checklistExpandedState == map[]
    {
      expandedState := map[];
      checklistExpandedState := map[];
    }

    /** `this.expandedState[pathKey]` is truthy. */
    predicate IsExpanded(key: string)
      reads this
    {
      key in expandedState && expandedState[key]
    }

    /** `this.checklistExpandedState[checklistKey] !== false` */
    predicate IsChecklistExpanded(key: string)
      reads this
    {
      !(key in checklistExpandedState && !checklistExpandedState[key])
    }

    /** toggleItem: `!undefined` is true, so an unset key becomes expanded. */
    method ToggleItem(key: string)
      modifies this
      ensures expandedState == old(expandedState)[key := !old(IsExpanded(key))]
      ensures IsExpanded(key) == !old(IsExpanded(key))
      ensures checklistExpandedState == old(checklistExpandedState)
    {
      expandedState := expandedState[key := !(key in expandedState && expandedState[key])];
    }

    /** toggleChecklist: an unset key is shown expanded, and toggling it
        stores true, so it stays expanded. */
    method ToggleChecklist(key: string)
      modifies this
      ensures checklistExpandedState == old(checklistExpandedState)[key := !(key in old(checklistExpandedState) && old(checklistExpandedState)[key])]
      ensures key !in old(checklistExpandedState) ==> old(IsChecklistExpanded(key)) && IsChecklistExpanded(key)
      ensures key in old(checklistExpandedState) ==> IsChecklistExpanded(key) == !old(IsChecklistExpanded(key))
      ensures expandedState == old(expandedState)
    {
      checklistExpandedState := checklistExpandedState[key := !(key in checklistExpandedState && checklistExpandedState[key])];
    }

    /** One node of the defaulting pass: its own key, then its children. */
    method DefaultNode(node: Node, path: seq<nat>, index: nat)
      modifies this
      decreases node, 0
      ensures expandedState == WithDefaults(WithDefaults(old(expandedState), [path + [index]]),
                                            RenderedBelow(node, path + [index]))
      ensures checklistExpandedState == old(checklistExpandedState)
    {
      var currentPath := path + [index];
      var key := PathKey(currentPath);
      WithDefaultsOne(expandedState, currentPath);
      if key !in expandedState {
        expandedState := expandedState[key := |path| == 0];
      }
      if node.children.Present? && |node.children.nodes| > 0 {
        ApplyDefaults(node.children.nodes, currentPath);
      } else {
        assert RenderedBelow(node, currentPath) == [];
      }
    }

    /** buildAccordion's defaulting pass over `nodes` under `path`: every
        unseen key gets `path.length === 0`. */
    method ApplyDefaults(nodes: seq<Node>, path: seq<nat>)
      modifies this
      decreases nodes, 1
      ensures expandedState == WithDefaults(old(expandedState), Rendered(nodes, path))
      ensures checklistExpandedState == old(checklistExpandedState)
    {
      for index := 0 to |nodes|
        invariant expandedState == WithDefaults(old(expandedState), Rendered(nodes[..index], path))
        invariant checklistExpandedState == old(checklistExpandedState)
      {
        ghost var visited := expandedState;
        DefaultNode(nodes[index], path, index);
        WithDefaultsStep(old(expandedState), nodes, path, index, visited, expandedState);
      }
      assert nodes[..|nodes|] == nodes;
    }
  }
}
