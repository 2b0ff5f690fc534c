/** The accretive merge of a remote copy of the document into the local one
    (authManager.mergeData / mergeTechnologies / mergeChecklists), stated as
    functions over values. Each function folds over the remote list one
    element at a time, as the forEach loops do, always looking up keys in
    the list built so far. */
module SyncMerge {
  import opened Util
  import opened Tree

  // ---------------------------------------------------------------------------
  // Lookups: Array.prototype.find / some with the merge's identity keys.

  /** The first node with this name (mergeData's `find`). */
  function IndexOfName(nodes: seq<Node>, name: string): (r: Option<nat>)
    ensures r.Some? ==> r.value < |nodes| && nodes[r.value].name == name &&
                        forall j :: 0 <= j < r.value ==> nodes[j].name != name
    ensures r.None? <==> forall j :: 0 <= j < |nodes| ==> nodes[j].name != name
  {
    if nodes == [] then None
    else if nodes[0].name == name then Some(0)
    else match IndexOfName(nodes[1..], name)
      case None => None
      case Some(k) => Some(k + 1)
  }

  /** The first node with this name and type (mergeTechnologies' `some`, mergeChecklists' `find`). */
  function IndexOfKey(nodes: seq<Node>, name: string, kind: NodeType): (r: Option<nat>)
    ensures r.Some? ==> r.value < |nodes| && nodes[r.value].name == name && nodes[r.value].kind == kind &&
                        forall j :: 0 <= j < r.value ==> !(nodes[j].name == name && nodes[j].kind == kind)
    ensures r.None? <==> forall j :: 0 <= j < |nodes| ==> !(nodes[j].name == name && nodes[j].kind == kind)
  {
    if nodes == [] then None
    else if nodes[0].name == name && nodes[0].kind == kind then Some(0)
    else match IndexOfKey(nodes[1..], name, kind)
      case None => None
      case Some(k) => Some(k + 1)
  }

  predicate HasText(items: seq<ChecklistItem>, text: string) {
    exists j :: 0 <= j < |items| && items[j].text == text
  }

  // ---------------------------------------------------------------------------
  // The merge, level by level.

  /** mergeChecklists' loop: push each remote item whose text is not yet present. */
  function MergeChecklistItems(local: seq<ChecklistItem>, remote: seq<ChecklistItem>): seq<ChecklistItem> {
    if remote == [] then local
    else
      var acc := MergeChecklistItems(local, remote[..|remote| - 1]);
      var item := remote[|remote| - 1];
      if HasText(acc, item.text) then acc else acc + [item]
  }

  /** mergeChecklists: merge `remoteTech`'s checklist into the first local
      technology of the same name, creating its checklist if missing. */
  function MergeChecklists(children: seq<Node>, remoteTech: Node): seq<Node> {
    match IndexOfKey(children, remoteTech.name, Technology)
    case None => children
    case Some(k) =>
      if remoteTech.checklist.None? then children
      else
        var items := MergeChecklistItems(children[k].checklist.GetOr([]), remoteTech.checklist.value);
        children[k := children[k].(checklist := Some(items))]
  }

  /** One iteration of mergeTechnologies' forEach: push a child whose
      (name, type) key is new, merge the checklist of a known technology,
      and leave a known sub-category alone. */
  function ChildStep(acc: seq<Node>, item: Node): seq<Node> {
    if IndexOfKey(acc, item.name, item.kind).None? then acc + [item]
    else if item.kind == Technology then MergeChecklists(acc, item)
    else acc
  }

  /** mergeTechnologies' loop over the remote children of a matched category. */
  function MergeChildren(local: seq<Node>, remote: seq<Node>): seq<Node> {
    if remote == [] then local
    else ChildStep(MergeChildren(local, remote[..|remote| - 1]), remote[|remote| - 1])
  }

  /** mergeTechnologies: the merged category and whether it completed. A
      local category without `children` throws a TypeError at the first
      remote child (`localCategory.children.some`); `false` marks that. */
  function MergeTechnologies(local: Node, remote: Node): (Node, bool) {
    if remote.children.Absent? then (local, true)
    else if local.children.Absent? then (local, remote.children.nodes == [])
    else (local.(children := Present(MergeChildren(local.children.nodes, remote.children.nodes))), true)
  }

  /** One iteration of mergeData's forEach: push a category whose name is
      new, otherwise merge into the first category of that name. */
  function CategoryStep(acc: seq<Node>, cat: Node): (seq<Node>, bool) {
    match IndexOfName(acc, cat.name)
    case None => (acc + [cat], true)
    case Some(k) =>
      var (merged, done) := MergeTechnologies(acc[k], cat);
      (acc[k := merged], done)
  }

  /** mergeData's loop over the remote categories. On a throw the categories
      merged so far stay merged and the rest are skipped. */
  function MergeCategories(local: seq<Node>, remote: seq<Node>): (seq<Node>, bool) {
    if remote == [] then (local, true)
    else
      var (acc, ok) := MergeCategories(local, remote[..|remote| - 1]);
      if !ok then (acc, false) else CategoryStep(acc, remote[|remote| - 1])
  }

  /** mergeData: `remote` is the remote document's `categories`, None when
      the document is missing or has none. */
  function MergeData(local: seq<Node>, remote: Option<seq<Node>>): (seq<Node>, bool) {
    if remote.None? then (local, true) else MergeCategories(local, remote.value)
  }

  // ---------------------------------------------------------------------------
  // Accretion: what "only ever appends" means at each level.

  /** Only the checklist may change, and an existing checklist only grows at its end. */
  predicate ChecklistGrows(a: Node, b: Node) {
    b == a.(checklist := b.checklist) &&
    (a.checklist.Some? ==> b.checklist.Some? && a.checklist.value <= b.checklist.value)
  }

  /** Every node of `a` keeps its position in `b` and only grows its checklist. */
  predicate ListGrows(a: seq<Node>, b: seq<Node>) {
    |a| <= |b| && forall i :: 0 <= i < |a| ==> ChecklistGrows(a[i], b[i])
  }

  /** Only `children` may change: an existing list grows as ListGrows says. */
  predicate CategoryGrows(a: Node, b: Node) {
    b == a.(children := b.children) &&
    (a.children.Absent? ==> b.children.Absent?) &&
    (a.children.Present? ==> b.children.Present? && ListGrows(a.children.nodes, b.children.nodes))
  }

  /** Every category of `a` keeps its position in `b` and only grows. */
  predicate DocGrows(a: seq<Node>, b: seq<Node>) {
    |a| <= |b| && forall i :: 0 <= i < |a| ==> CategoryGrows(a[i], b[i])
  }

  lemma ListGrowsTrans(a: seq<Node>, b: seq<Node>, c: seq<Node>)
    requires ListGrows(a, b) && ListGrows(b, c)
    ensures ListGrows(a, c)
  {
    forall i | 0 <= i < |a|
      ensures ChecklistGrows(a[i], c[i])
    {
      assert ChecklistGrows(a[i], b[i]) && ChecklistGrows(b[i], c[i]);
      if a[i].checklist.Some? {
        assert a[i].checklist.value <= b[i].checklist.value <= c[i].checklist.value;
      }
    }
  }

  lemma DocGrowsTrans(a: seq<Node>, b: seq<Node>, c: seq<Node>)
    requires DocGrows(a, b) && DocGrows(b, c)
    ensures DocGrows(a, c)
  {
    forall i | 0 <= i < |a|
      ensures CategoryGrows(a[i], c[i])
    {
      assert CategoryGrows(a[i], b[i]) && CategoryGrows(b[i], c[i]);
      if a[i].children.Present? {
        ListGrowsTrans(a[i].children.nodes, b[i].children.nodes, c[i].children.nodes);
      }
    }
  }

  lemma ListGrowsRefl(a: seq<Node>)
    ensures ListGrows(a, a)
  {
    forall i | 0 <= i < |a|
      ensures ChecklistGrows(a[i], a[i])
    {
      assert a[i].(checklist := a[i].checklist) == a[i];
    }
  }

  // ---------------------------------------------------------------------------
  // Checklist level.

  /** Merging checklists keeps every local item, with its `completed` flag, at
      its position; afterwards every remote text is present; each appended item
      is a remote item whose text the local list lacked, and no two appended
      items share a text. */
  lemma {:induction false} MergeChecklistItemsSpec(local: seq<ChecklistItem>, remote: seq<ChecklistItem>)
    ensures var r := MergeChecklistItems(local, remote);
            local <= r &&
            (forall j :: 0 <= j < |remote| ==> HasText(r, remote[j].text)) &&
            (forall j :: |local| <= j < |r| ==> r[j] in remote && !HasText(local, r[j].text)) &&
            (forall i, j :: |local| <= i < j < |r| ==> r[i].text != r[j].text)
  {
    if remote != [] {
      var prefix := remote[..|remote| - 1];
      var item := remote[|remote| - 1];
      MergeChecklistItemsSpec(local, prefix);
      var acc := MergeChecklistItems(local, prefix);
      var r := MergeChecklistItems(local, remote);
      forall j | 0 <= j < |remote|
        ensures HasText(r, remote[j].text)
      {
        if j < |remote| - 1 {
          assert remote[j] == prefix[j];
          var w :| 0 <= w < |acc| && acc[w].text == remote[j].text;
          assert r[w] == acc[w];
        } else if !HasText(acc, item.text) {
          assert r[|r| - 1] == item;
        }
      }
      forall j | |local| <= j < |r|
        ensures r[j] in remote && !HasText(local, r[j].text)
      {
        if j < |acc| {
          assert r[j] == acc[j] && acc[j] in prefix;
        } else {
          assert r[j] == item;
          assert forall w :: 0 <= w < |local| ==> acc[w] == local[w];
        }
      }
    }
  }

  /** A checklist merged with any list whose texts it already holds is
      unchanged; in particular merging a checklist with itself. */
  lemma {:induction false} MergeChecklistItemsCovered(local: seq<ChecklistItem>, remote: seq<ChecklistItem>)
    requires forall j :: 0 <= j < |remote| ==> HasText(local, remote[j].text)
    ensures MergeChecklistItems(local, remote) == local
  {
    if remote != [] {
      MergeChecklistItemsCovered(local, remote[..|remote| - 1]);
      assert HasText(local, remote[|remote| - 1].text);
    }
  }

  lemma MergeChecklistItemsSelf(items: seq<ChecklistItem>)
    ensures MergeChecklistItems(items, items) == items
  {
    forall j | 0 <= j < |items|
      ensures HasText(items, items[j].text)
    {
    }
    MergeChecklistItemsCovered(items, items);
  }

  /** The items mergeChecklists appended to the first technology named like
      `remoteTech` are remote items whose text that technology lacked. */
  predicate ChecklistAddsFrom(children: seq<Node>, r: seq<Node>, remoteTech: Node)
    requires IndexOfKey(children, remoteTech.name, Technology).Some? && remoteTech.checklist.Some? && |r| == |children|
  {
    var k := IndexOfKey(children, remoteTech.name, Technology).value;
    var before := children[k].checklist.GetOr([]);
    r[k].checklist.Some? && before <= r[k].checklist.value &&
    forall j :: |before| <= j < |r[k].checklist.value| ==>
      r[k].checklist.value[j] in remoteTech.checklist.value && !HasText(before, r[k].checklist.value[j].text)
  }

  /** mergeChecklists changes nothing when no local technology has the name
      or the remote has no checklist; otherwise it grows only that
      technology's checklist (creating it if missing). */
  lemma MergeChecklistsSpec(children: seq<Node>, remoteTech: Node)
    ensures var r := MergeChecklists(children, remoteTech);
            ListGrows(children, r) && |r| == |children| &&
            (IndexOfKey(children, remoteTech.name, Technology).None? || remoteTech.checklist.None? ==> r == children) &&
            (forall k :: 0 <= k < |children| && Some(k) != IndexOfKey(children, remoteTech.name, Technology) ==>
               r[k] == children[k]) &&
            (IndexOfKey(children, remoteTech.name, Technology).Some? && remoteTech.checklist.Some? ==>
               TechCovered(r, remoteTech) && ChecklistAddsFrom(children, r, remoteTech))
  {
    match IndexOfKey(children, remoteTech.name, Technology)
    case None => ListGrowsRefl(children);
    case Some(k) =>
      if remoteTech.checklist.Some? {
        MergeChecklistItemsSpec(children[k].checklist.GetOr([]), remoteTech.checklist.value);
        var r := MergeChecklists(children, remoteTech);
        forall i | 0 <= i < |children|
          ensures ChecklistGrows(children[i], r[i])
        {
          if i != k {
            assert children[i].(checklist := children[i].checklist) == children[i];
          }
        }
        ListGrowsSameKeys(children, r);
        IndexOfKeyGrows(children, r, remoteTech.name, Technology);
      } else {
        ListGrowsRefl(children);
      }
  }

  // ---------------------------------------------------------------------------
  // Children level.

  predicate HasKey(nodes: seq<Node>, name: string, kind: NodeType) {
    exists j :: 0 <= j < |nodes| && nodes[j].name == name && nodes[j].kind == kind
  }

  /** One step of the children loop grows the list in place, keeps every
      key where it was, and leaves the item covered: appended at the end
      exactly when its key was new, otherwise its checklist texts merged into
      the first technology of its name. */
  lemma ChildStepSpec(acc: seq<Node>, item: Node)
    ensures var r := ChildStep(acc, item);
            ListGrows(acc, r) &&
            (forall j :: 0 <= j < |acc| ==> r[j].name == acc[j].name && r[j].kind == acc[j].kind) &&
            HasKey(r, item.name, item.kind) &&
            (HasKey(acc, item.name, item.kind) ==> |r| == |acc|) &&
            (!HasKey(acc, item.name, item.kind) ==> r == acc + [item]) &&
            ChildCovered(r, item)
  {
    ChildStepCovers(acc, item);
    var r := ChildStep(acc, item);
    var found := IndexOfKey(acc, item.name, item.kind);
    if found.None? {
      forall i | 0 <= i < |acc|
        ensures ChecklistGrows(acc[i], r[i])
      {
        assert r[i] == acc[i];
        assert acc[i].(checklist := acc[i].checklist) == acc[i];
      }
      assert r[|acc|] == item;
    } else {
      if item.kind == Technology {
        MergeChecklistsSpec(acc, item);
      } else {
        ListGrowsRefl(acc);
      }
      var w := found.value;
      assert r[w].name == acc[w].name && r[w].kind == acc[w].kind;
    }
  }

  /** Merging children keeps every local child at its position, growing at most its checklist. */
  lemma {:induction false} MergeChildrenGrows(local: seq<Node>, remote: seq<Node>)
    ensures ListGrows(local, MergeChildren(local, remote))
  {
    if remote == [] {
      ListGrowsRefl(local);
    } else {
      var acc := MergeChildren(local, remote[..|remote| - 1]);
      MergeChildrenGrows(local, remote[..|remote| - 1]);
      ChildStepSpec(acc, remote[|remote| - 1]);
      ListGrowsTrans(local, acc, MergeChildren(local, remote));
    }
  }

  /** After merging children, every remote (name, type) key is present. */
  lemma {:induction false} MergeChildrenCovers(local: seq<Node>, remote: seq<Node>)
    ensures var r := MergeChildren(local, remote);
            forall j :: 0 <= j < |remote| ==> HasKey(r, remote[j].name, remote[j].kind)
  {
    if remote != [] {
      var prefix := remote[..|remote| - 1];
      var acc := MergeChildren(local, prefix);
      var r := MergeChildren(local, remote);
      MergeChildrenCovers(local, prefix);
      ChildStepSpec(acc, remote[|remote| - 1]);
      forall j | 0 <= j < |remote| - 1
        ensures HasKey(r, remote[j].name, remote[j].kind)
      {
        assert remote[j] == prefix[j];
        var w :| 0 <= w < |acc| && acc[w].name == remote[j].name && acc[w].kind == remote[j].kind;
        assert r[w].name == acc[w].name && r[w].kind == acc[w].kind;
      }
    }
  }

  /** The children appended by a merge carry keys the local list lacked,
      each key once, each the key of some remote child. */
  lemma MergeChildrenTail(local: seq<Node>, remote: seq<Node>)
    ensures var r := MergeChildren(local, remote);
            |local| <= |r| &&
            (forall j :: |local| <= j < |r| ==> !HasKey(local, r[j].name, r[j].kind) && HasKey(remote, r[j].name, r[j].kind)) &&
            (forall i, j :: |local| <= i < j < |r| ==> !(r[i].name == r[j].name && r[i].kind == r[j].kind))
  {
    MergeChildrenNew(local, remote);
    MergeChildrenOnce(local, remote);
  }

  lemma {:induction false} MergeChildrenNew(local: seq<Node>, remote: seq<Node>)
    ensures var r := MergeChildren(local, remote);
            |local| <= |r| &&
            forall j :: |local| <= j < |r| ==> !HasKey(local, r[j].name, r[j].kind) && HasKey(remote, r[j].name, r[j].kind)
  {
    if remote != [] {
      var prefix := remote[..|remote| - 1];
      var item := remote[|remote| - 1];
      var acc := MergeChildren(local, prefix);
      var r := MergeChildren(local, remote);
      MergeChildrenNew(local, prefix);
      MergeChildrenGrows(local, prefix);
      ChildStepSpec(acc, item);
      forall j | |local| <= j < |r|
        ensures !HasKey(local, r[j].name, r[j].kind) && HasKey(remote, r[j].name, r[j].kind)
      {
        if j < |acc| {
          assert r[j].name == acc[j].name && r[j].kind == acc[j].kind;
          var k :| 0 <= k < |prefix| && prefix[k].name == acc[j].name && prefix[k].kind == acc[j].kind;
          assert remote[k] == prefix[k];
        } else {
          assert r[j] == item;
          forall w | 0 <= w < |local|
            ensures !(local[w].name == item.name && local[w].kind == item.kind)
          {
            assert ChecklistGrows(local[w], acc[w]);
          }
        }
      }
    }
  }

  lemma {:induction false} MergeChildrenOnce(local: seq<Node>, remote: seq<Node>)
    ensures var r := MergeChildren(local, remote);
            forall i, j :: |local| <= i < j < |r| ==> !(r[i].name == r[j].name && r[i].kind == r[j].kind)
  {
    if remote != [] {
      var prefix := remote[..|remote| - 1];
      var item := remote[|remote| - 1];
      var acc := MergeChildren(local, prefix);
      var r := MergeChildren(local, remote);
      MergeChildrenOnce(local, prefix);
      assert var r := MergeChildren(local, prefix);
             forall i, j :: |local| <= i < j < |r| ==> !(r[i].name == r[j].name && r[i].kind == r[j].kind);
      ChildStepSpec(acc, item);
      forall i, j | |local| <= i < j < |r|
        ensures !(r[i].name == r[j].name && r[i].kind == r[j].kind)
      {
        assert r[i].name == acc[i].name && r[i].kind == acc[i].kind;
        if j < |acc| {
          assert r[j].name == acc[j].name && r[j].kind == acc[j].kind;
        } else {
          assert !HasKey(acc, item.name, item.kind) && r[j] == item;
        }
      }
    }
  }

  /** Merging children keeps every local child at its position, growing at
      most its checklist; afterwards every remote (name, type) key is present
      and every remote technology's checklist texts are in the first
      technology of its name;
      the appended children carry keys the local list lacked, each key once,
      each the key of some remote child. */
  lemma MergeChildrenSpec(local: seq<Node>, remote: seq<Node>)
    ensures var r := MergeChildren(local, remote);
            ListGrows(local, r) &&
            ChildrenCovered(r, remote) &&
            (forall j :: |local| <= j < |r| ==> !HasKey(local, r[j].name, r[j].kind) && HasKey(remote, r[j].name, r[j].kind)) &&
            (forall i, j :: |local| <= i < j < |r| ==> !(r[i].name == r[j].name && r[i].kind == r[j].kind))
  {
    MergeChildrenGrows(local, remote);
    MergeChildrenCoversAll(local, remote);
    MergeChildrenTail(local, remote);
  }

  /** Children whose (name, type) keys are pairwise distinct. */
  predicate UniqueKeys(nodes: seq<Node>) {
    forall i, j :: 0 <= i < j < |nodes| ==> !(nodes[i].name == nodes[j].name && nodes[i].kind == nodes[j].kind)
  }

  /** With distinct keys, merging a child list with itself appends nothing
      and changes nothing. */
  lemma {:induction false} MergeChildrenSelfPrefix(children: seq<Node>, n: nat)
    requires UniqueKeys(children) && n <= |children|
    ensures MergeChildren(children, children[..n]) == children
  {
    if n > 0 {
      var prefix := children[..n][..n - 1];
      assert prefix == children[..n - 1];
      MergeChildrenSelfPrefix(children, n - 1);
      var item := children[n - 1];
      assert children[..n][n - 1] == item;
      var found := IndexOfKey(children, item.name, item.kind);
      assert found == Some(n - 1);
      if item.kind == Technology && item.checklist.Some? {
        MergeChecklistItemsSelf(item.checklist.value);
        assert item.(checklist := Some(item.checklist.value)) == item;
        assert children[n - 1 := item] == children;
      }
    }
  }

  lemma MergeChildrenSelf(children: seq<Node>)
    requires UniqueKeys(children)
    ensures MergeChildren(children, children) == children
  {
    MergeChildrenSelfPrefix(children, |children|);
    assert children[..|children|] == children;
  }

  // ---------------------------------------------------------------------------
  // Category and document level.

  /** mergeTechnologies grows the local category (only its children change,
      as MergeChildrenSpec says) and, when it completes, covers the remote
      children; it completes unless the local category has no `children`
      while the remote one has some. */
  lemma MergeTechnologiesSpec(local: Node, remote: Node)
    ensures var (b, ok) := MergeTechnologies(local, remote);
            CategoryGrows(local, b) &&
            (!ok <==> remote.children.Present? && remote.children.nodes != [] && local.children.Absent?) &&
            (!ok ==> b == local) &&
            (remote.children.Absent? ==> b == local) &&
            (ok && remote.children.Present? && remote.children.nodes != [] ==>
               b.children.Present? && ChildrenCovered(b.children.nodes, remote.children.nodes))
  {
    if remote.children.Present? && local.children.Present? {
      MergeChildrenSpec(local.children.nodes, remote.children.nodes);
    }
  }

  predicate HasName(nodes: seq<Node>, name: string) {
    exists j :: 0 <= j < |nodes| && nodes[j].name == name
  }

  lemma DocGrowsRefl(a: seq<Node>)
    ensures DocGrows(a, a)
  {
    forall i | 0 <= i < |a|
      ensures CategoryGrows(a[i], a[i])
    {
      if a[i].children.Present? {
        ListGrowsRefl(a[i].children.nodes);
      }
    }
  }

  /** One step of the category loop grows the document in place, keeps every
      name where it was, and leaves the category's name present: appended at
      the end exactly when it was new. */
  lemma CategoryStepGrows(acc: seq<Node>, cat: Node)
    ensures var (r, ok) := CategoryStep(acc, cat);
            DocGrows(acc, r) &&
            (forall j :: 0 <= j < |acc| ==> r[j].name == acc[j].name) &&
            HasName(r, cat.name) &&
            (HasName(acc, cat.name) ==> |r| == |acc|) &&
            (!HasName(acc, cat.name) ==> r == acc + [cat] && ok)
  {
    var (r, ok) := CategoryStep(acc, cat);
    DocGrowsRefl(acc);
    match IndexOfName(acc, cat.name)
    case None =>
      assert r[|acc|] == cat;
      forall i | 0 <= i < |acc|
        ensures CategoryGrows(acc[i], r[i])
      {
        assert r[i] == acc[i];
      }
    case Some(k) =>
      MergeTechnologiesSpec(acc[k], cat);
      assert r[k].name == cat.name;
  }

  /** One step of the category loop: a new name is pushed whole at the end;
      a known one is merged into the first category of that name, no other
      category changes, and a step that completes leaves the remote category
      covered. */
  lemma CategoryStepSpec(acc: seq<Node>, cat: Node)
    ensures var (r, ok) := CategoryStep(acc, cat);
            DocGrows(acc, r) &&
            (forall j :: 0 <= j < |acc| ==> r[j].name == acc[j].name) &&
            (!HasName(acc, cat.name) ==> r == acc + [cat] && ok) &&
            (HasName(acc, cat.name) ==> |r| == |acc|) &&
            (forall j :: 0 <= j < |acc| && Some(j) != IndexOfName(acc, cat.name) ==> r[j] == acc[j]) &&
            (ok && HasName(acc, cat.name) ==> CategoryCovered(r, cat))
  {
    CategoryStepGrows(acc, cat);
    if HasName(acc, cat.name) {
      CategoryStepCoversKnown(acc, cat);
    }
  }

  /** A completed step into a known category leaves the remote category covered. */
  lemma CategoryStepCoversKnown(acc: seq<Node>, cat: Node)
    requires IndexOfName(acc, cat.name).Some?
    ensures var (r, ok) := CategoryStep(acc, cat);
            ok ==> CategoryCovered(r, cat)
  {
    var (r, ok) := CategoryStep(acc, cat);
    var k := IndexOfName(acc, cat.name).value;
    CategoryStepGrows(acc, cat);
    DocGrowsSameKeys(acc, r);
    IndexOfNameGrows(acc, r, cat.name);
    if ok && cat.children.Present? && cat.children.nodes != [] {
      MergeChildrenCoversAll(acc[k].children.nodes, cat.children.nodes);
    }
  }

  /** Merging the document grows every local category in place. */
  lemma {:induction false} MergeCategoriesGrows(local: seq<Node>, remote: seq<Node>)
    ensures DocGrows(local, MergeCategories(local, remote).0)
  {
    if remote == [] {
      DocGrowsRefl(local);
    } else {
      var (acc, ok) := MergeCategories(local, remote[..|remote| - 1]);
      MergeCategoriesGrows(local, remote[..|remote| - 1]);
      if ok {
        CategoryStepGrows(acc, remote[|remote| - 1]);
        DocGrowsTrans(local, acc, MergeCategories(local, remote).0);
      }
    }
  }

  /** A merge that completes leaves every remote category name present. */
  lemma {:induction false} MergeCategoriesCovers(local: seq<Node>, remote: seq<Node>)
    ensures var (r, ok) := MergeCategories(local, remote);
            ok ==> forall j :: 0 <= j < |remote| ==> HasName(r, remote[j].name)
  {
    if remote != [] {
      var prefix := remote[..|remote| - 1];
      var (acc, ok0) := MergeCategories(local, prefix);
      var (r, ok) := MergeCategories(local, remote);
      MergeCategoriesCovers(local, prefix);
      if ok {
        CategoryStepGrows(acc, remote[|remote| - 1]);
        forall j | 0 <= j < |remote| - 1
          ensures HasName(r, remote[j].name)
        {
          assert remote[j] == prefix[j];
          var w :| 0 <= w < |acc| && acc[w].name == remote[j].name;
          assert r[w].name == acc[w].name;
        }
      }
    }
  }

  /** The categories appended by a merge carry names the local document
      lacked, each name once, each the name of some remote category. */
  lemma MergeCategoriesTail(local: seq<Node>, remote: seq<Node>)
    ensures var (r, ok) := MergeCategories(local, remote);
            |local| <= |r| &&
            (forall j :: |local| <= j < |r| ==> !HasName(local, r[j].name) && HasName(remote, r[j].name)) &&
            (forall i, j :: |local| <= i < j < |r| ==> r[i].name != r[j].name)
  {
    MergeCategoriesNew(local, remote);
    MergeCategoriesOnce(local, remote);
  }

  lemma {:induction false} MergeCategoriesNew(local: seq<Node>, remote: seq<Node>)
    ensures var (r, ok) := MergeCategories(local, remote);
            |local| <= |r| &&
            forall j :: |local| <= j < |r| ==> !HasName(local, r[j].name) && HasName(remote, r[j].name)
  {
    if remote != [] {
      var prefix := remote[..|remote| - 1];
      var cat := remote[|remote| - 1];
      var (acc, ok0) := MergeCategories(local, prefix);
      var (r, ok) := MergeCategories(local, remote);
      MergeCategoriesNew(local, prefix);
      if ok0 {
        MergeCategoriesGrows(local, prefix);
        CategoryStepGrows(acc, cat);
        forall j | |local| <= j < |r|
          ensures !HasName(local, r[j].name) && HasName(remote, r[j].name)
        {
          if j < |acc| {
            assert r[j].name == acc[j].name;
            var k :| 0 <= k < |prefix| && prefix[k].name == acc[j].name;
            assert remote[k] == prefix[k];
          } else {
            assert r[j] == cat;
            forall w | 0 <= w < |local|
              ensures local[w].name != cat.name
            {
              assert CategoryGrows(local[w], acc[w]);
            }
          }
        }
      } else {
        assert r == acc;
        forall j | |local| <= j < |r|
          ensures HasName(remote, r[j].name)
        {
          var k :| 0 <= k < |prefix| && prefix[k].name == acc[j].name;
          assert remote[k] == prefix[k];
        }
      }
    }
  }

  lemma {:induction false} MergeCategoriesOnce(local: seq<Node>, remote: seq<Node>)
    ensures var (r, ok) := MergeCategories(local, remote);
            forall i, j :: |local| <= i < j < |r| ==> r[i].name != r[j].name
  {
    if remote != [] {
      var prefix := remote[..|remote| - 1];
      var cat := remote[|remote| - 1];
      var (acc, ok0) := MergeCategories(local, prefix);
      var (r, ok) := MergeCategories(local, remote);
      MergeCategoriesOnce(local, prefix);
      assert var (r, ok) := MergeCategories(local, prefix);
             forall i, j :: |local| <= i < j < |r| ==> r[i].name != r[j].name;
      if ok0 {
        CategoryStepGrows(acc, cat);
        forall i, j | |local| <= i < j < |r|
          ensures r[i].name != r[j].name
        {
          assert r[i].name == acc[i].name;
          if j < |acc| {
            assert r[j].name == acc[j].name;
          } else {
            assert !HasName(acc, cat.name) && r == acc + [cat];
            assert r[j] == cat;
          }
        }
      } else {
        assert r == acc;
      }
    }
  }

  /** Once a category throws, the remaining remote categories are skipped. */
  lemma {:induction false} MergeCategoriesStopsOnThrow(local: seq<Node>, remote: seq<Node>, n: nat)
    requires n <= |remote| && !MergeCategories(local, remote[..n]).1
    ensures MergeCategories(local, remote) == MergeCategories(local, remote[..n])
  {
    if n < |remote| {
      assert remote[..|remote| - 1][..n] == remote[..n];
      MergeCategoriesStopsOnThrow(local, remote[..|remote| - 1], n);
    } else {
      assert remote[..n] == remote;
    }
  }

  /** Merging the document grows every local category in place; the appended
      categories carry names the local document lacked, each name once, each
      the name of a remote category; when the merge completes every remote
      category name is present and, when the remote categories list each
      child key once, every remote category is covered as MergeDataCovers
      says. A throw stops it with what was merged so far. */
  lemma MergeCategoriesSpec(local: seq<Node>, remote: seq<Node>)
    ensures var (r, ok) := MergeCategories(local, remote);
            DocGrows(local, r) &&
            (ok ==> forall j :: 0 <= j < |remote| ==> HasName(r, remote[j].name)) &&
            (ok && UniqueChildKeys(remote) ==> DocCovers(r, remote)) &&
            (forall j :: |local| <= j < |r| ==> !HasName(local, r[j].name) && HasName(remote, r[j].name)) &&
            (forall i, j :: |local| <= i < j < |r| ==> r[i].name != r[j].name)
  {
    MergeCategoriesGrows(local, remote);
    MergeCategoriesCovers(local, remote);
    if UniqueChildKeys(remote) {
      MergeCategoriesCoversAll(local, remote);
    }
    MergeCategoriesTail(local, remote);
  }

  /** The remote document missing, or lacking categories, changes nothing. */
  lemma MergeDataMissing(local: seq<Node>)
    ensures MergeData(local, None) == (local, true)
  {
  }

  /** A document whose category names are distinct and whose categories'
      children have distinct (name, type) keys. */
  predicate WellKeyed(doc: seq<Node>) {
    (forall i, j :: 0 <= i < j < |doc| ==> doc[i].name != doc[j].name) &&
    (forall i :: 0 <= i < |doc| && doc[i].children.Present? ==> UniqueKeys(doc[i].children.nodes))
  }

  /** Merging a well-keyed document with an identical remote copy appends
      nothing and changes nothing. */
  lemma {:induction false} MergeSelfPrefix(doc: seq<Node>, n: nat)
    requires WellKeyed(doc) && n <= |doc|
    ensures MergeCategories(doc, doc[..n]) == (doc, true)
  {
    if n > 0 {
      assert doc[..n][..n - 1] == doc[..n - 1];
      MergeSelfPrefix(doc, n - 1);
      var cat := doc[n - 1];
      assert doc[..n][n - 1] == cat;
      var found := IndexOfName(doc, cat.name);
      assert found == Some(n - 1);
      if cat.children.Present? {
        MergeChildrenSelf(cat.children.nodes);
        assert cat.(children := Present(cat.children.nodes)) == cat;
      }
      assert doc[n - 1 := cat] == doc;
    }
  }

  lemma MergeSelf(doc: seq<Node>)
    requires WellKeyed(doc)
    ensures MergeData(doc, Some(doc)) == (doc, true)
  {
    MergeSelfPrefix(doc, |doc|);
    assert doc[..|doc|] == doc;
  }

  /** Without distinct category names, an identical copy is not a no-op: the
      second "a" category's children are merged into the first. */
  lemma SelfMergeNeedsDistinctNames()
    ensures var t := Node(None, "t", Technology, Absent, false, None, None, None, None);
            var a1 := Node(None, "a", Category, Present([]), false, None, None, None, None);
            var a2 := Node(None, "a", Category, Present([t]), false, None, None, None, None);
            MergeData([a1, a2], Some([a1, a2])) == ([a1.(children := Present([t])), a2], true)
  {
    var t := Node(None, "t", Technology, Absent, false, None, None, None, None);
    var a1 := Node(None, "a", Category, Present([]), false, None, None, None, None);
    var a2 := Node(None, "a", Category, Present([t]), false, None, None, None, None);
    var doc := [a1, a2];
    assert doc[..1] == [a1] && doc[..2] == doc && [a1][..0] == [] && [t][..0] == [];
    assert IndexOfName(doc, "a") == Some(0);
    assert MergeChildren([], []) == [];
    assert a1.(children := Present([])) == a1;
    assert MergeTechnologies(a1, a1) == (a1, true);
    assert doc[0 := a1] == doc;
    assert CategoryStep(doc, a1) == (doc, true);
    assert MergeCategories(doc, [a1]) == (doc, true);
    assert MergeChildren([], [t]) == ChildStep([], t) == [t];
    assert MergeTechnologies(a1, a2) == (a1.(children := Present([t])), true);
    assert doc[0 := a1.(children := Present([t]))] == [a1.(children := Present([t])), a2];
    assert CategoryStep(doc, a2) == ([a1.(children := Present([t])), a2], true);
  }

  // ---------------------------------------------------------------------------
  // Coverage: nothing remote is missing after a merge that completes.

  /** Every text of `remote` is the text of some item of `items`. */
  predicate CoversTexts(items: seq<ChecklistItem>, remote: seq<ChecklistItem>) {
    forall j :: 0 <= j < |remote| ==> HasText(items, remote[j].text)
  }

  /** The checklist texts of a remote technology are all in the first local
      technology of its name, the one later merges go to. */
  predicate TechCovered(nodes: seq<Node>, t: Node) {
    t.checklist.Some? ==>
      match IndexOfKey(nodes, t.name, Technology)
      case None => false
      case Some(k) => nodes[k].checklist.Some? && CoversTexts(nodes[k].checklist.value, t.checklist.value)
  }

  /** A remote child's (name, type) key is present and, for a technology, so are its checklist texts. */
  predicate ChildCovered(nodes: seq<Node>, t: Node) {
    HasKey(nodes, t.name, t.kind) && (t.kind == Technology ==> TechCovered(nodes, t))
  }

  predicate ChildrenCovered(nodes: seq<Node>, remote: seq<Node>) {
    forall j :: 0 <= j < |remote| ==> ChildCovered(nodes, remote[j])
  }

  /** A remote category's name is present, and the first local category of
      that name holds its children as ChildrenCovered says. */
  predicate CategoryCovered(doc: seq<Node>, c: Node) {
    match IndexOfName(doc, c.name)
    case None => false
    case Some(k) =>
      c.children.Present? && c.children.nodes != [] ==>
        doc[k].children.Present? && ChildrenCovered(doc[k].children.nodes, c.children.nodes)
  }

  predicate DocCovers(doc: seq<Node>, remote: seq<Node>) {
    forall j :: 0 <= j < |remote| ==> CategoryCovered(doc, remote[j])
  }

  /** Categories that each list a (name, type) key at most once. */
  predicate UniqueChildKeys(doc: seq<Node>) {
    forall i :: 0 <= i < |doc| && doc[i].children.Present? ==> UniqueKeys(doc[i].children.nodes)
  }

  lemma CoversTextsGrows(a: seq<ChecklistItem>, b: seq<ChecklistItem>, remote: seq<ChecklistItem>)
    requires a <= b && CoversTexts(a, remote)
    ensures CoversTexts(b, remote)
  {
    forall j | 0 <= j < |remote|
      ensures HasText(b, remote[j].text)
    {
      var w :| 0 <= w < |a| && a[w].text == remote[j].text;
      assert b[w] == a[w];
    }
  }

  /** `b` keeps every node of `a` at its position with its name and type. */
  predicate SameKeys(a: seq<Node>, b: seq<Node>) {
    |a| <= |b| && forall j :: 0 <= j < |a| ==> b[j].name == a[j].name && b[j].kind == a[j].kind
  }

  lemma ListGrowsSameKeys(a: seq<Node>, b: seq<Node>)
    requires ListGrows(a, b)
    ensures SameKeys(a, b)
  {
    forall j | 0 <= j < |a|
      ensures b[j].name == a[j].name && b[j].kind == a[j].kind
    {
      assert ChecklistGrows(a[j], b[j]);
    }
  }

  lemma DocGrowsSameKeys(a: seq<Node>, b: seq<Node>)
    requires DocGrows(a, b)
    ensures SameKeys(a, b)
  {
    forall j | 0 <= j < |a|
      ensures b[j].name == a[j].name && b[j].kind == a[j].kind
    {
      assert CategoryGrows(a[j], b[j]);
    }
  }

  /** The first node with a key stays the first while the list keeps its keys. */
  lemma IndexOfKeyGrows(a: seq<Node>, b: seq<Node>, name: string, kind: NodeType)
    requires SameKeys(a, b) && IndexOfKey(a, name, kind).Some?
    ensures IndexOfKey(b, name, kind) == IndexOfKey(a, name, kind)
  {
    var k := IndexOfKey(a, name, kind).value;
    assert b[k].name == name && b[k].kind == kind;
  }

  /** The first category with a name stays the first while the document keeps its names. */
  lemma IndexOfNameGrows(a: seq<Node>, b: seq<Node>, name: string)
    requires SameKeys(a, b) && IndexOfName(a, name).Some?
    ensures IndexOfName(b, name) == IndexOfName(a, name)
  {
    var k := IndexOfName(a, name).value;
    assert b[k].name == name;
  }

  lemma ChildCoveredGrows(a: seq<Node>, b: seq<Node>, t: Node)
    requires ListGrows(a, b) && ChildCovered(a, t)
    ensures ChildCovered(b, t)
  {
    var w :| 0 <= w < |a| && a[w].name == t.name && a[w].kind == t.kind;
    assert ChecklistGrows(a[w], b[w]);
    if t.kind == Technology && t.checklist.Some? {
      ListGrowsSameKeys(a, b);
      IndexOfKeyGrows(a, b, t.name, Technology);
      var k := IndexOfKey(a, t.name, Technology).value;
      assert ChecklistGrows(a[k], b[k]);
      CoversTextsGrows(a[k].checklist.value, b[k].checklist.value, t.checklist.value);
    }
  }

  lemma ChildrenCoveredGrows(a: seq<Node>, b: seq<Node>, remote: seq<Node>)
    requires ListGrows(a, b) && ChildrenCovered(a, remote)
    ensures ChildrenCovered(b, remote)
  {
    forall j | 0 <= j < |remote|
      ensures ChildCovered(b, remote[j])
    {
      ChildCoveredGrows(a, b, remote[j]);
    }
  }

  lemma CategoryCoveredGrows(a: seq<Node>, b: seq<Node>, c: Node)
    requires DocGrows(a, b) && CategoryCovered(a, c)
    ensures CategoryCovered(b, c)
  {
    DocGrowsSameKeys(a, b);
    IndexOfNameGrows(a, b, c.name);
    var k := IndexOfName(a, c.name).value;
    assert CategoryGrows(a[k], b[k]);
    if c.children.Present? && c.children.nodes != [] {
      ChildrenCoveredGrows(a[k].children.nodes, b[k].children.nodes, c.children.nodes);
    }
  }

  /** A child list whose keys are distinct covers itself. */
  lemma ChildrenCoveredSelf(nodes: seq<Node>)
    requires UniqueKeys(nodes)
    ensures ChildrenCovered(nodes, nodes)
  {
    forall j | 0 <= j < |nodes|
      ensures ChildCovered(nodes, nodes[j])
    {
      var t := nodes[j];
      if t.kind == Technology && t.checklist.Some? {
        assert IndexOfKey(nodes, t.name, Technology) == Some(j);
        forall i | 0 <= i < |t.checklist.value|
          ensures HasText(t.checklist.value, t.checklist.value[i].text)
        {
        }
      }
    }
  }

  /** One step of the children loop leaves the item covered: pushed when its
      key is new, its checklist merged into the first technology of its name
      otherwise. */
  lemma ChildStepCovers(acc: seq<Node>, item: Node)
    ensures ChildCovered(ChildStep(acc, item), item)
  {
    var r := ChildStep(acc, item);
    match IndexOfKey(acc, item.name, item.kind)
    case None =>
      assert r[|acc|] == item;
      if item.kind == Technology && item.checklist.Some? {
        forall j | 0 <= j < |acc|
          ensures !(r[j].name == item.name && r[j].kind == Technology)
        {
          assert r[j] == acc[j];
        }
        assert IndexOfKey(r, item.name, Technology) == Some(|acc|);
        forall i | 0 <= i < |item.checklist.value|
          ensures HasText(item.checklist.value, item.checklist.value[i].text)
        {
        }
      }
    case Some(k) =>
      if item.kind == Technology {
        MergeChecklistsSpec(acc, item);
        assert r[k].name == acc[k].name && r[k].kind == acc[k].kind;
      } else {
        assert r[k] == acc[k];
      }
  }

  /** After merging children every remote child is covered. */
  lemma {:induction false} MergeChildrenCoversAll(local: seq<Node>, remote: seq<Node>)
    ensures ChildrenCovered(MergeChildren(local, remote), remote)
  {
    if remote != [] {
      var prefix := remote[..|remote| - 1];
      var item := remote[|remote| - 1];
      var acc := MergeChildren(local, prefix);
      var r := MergeChildren(local, remote);
      MergeChildrenCoversAll(local, prefix);
      ChildStepSpec(acc, item);
      ChildrenCoveredGrows(acc, r, prefix);
      ChildStepCovers(acc, item);
      forall j | 0 <= j < |remote|
        ensures ChildCovered(r, remote[j])
      {
        if j < |remote| - 1 {
          assert remote[j] == prefix[j];
        }
      }
    }
  }

  /** A category step that completes leaves the category covered, given that
      a category pushed whole lists each child key once. */
  lemma CategoryStepCovers(acc: seq<Node>, cat: Node)
    requires cat.children.Present? ==> UniqueKeys(cat.children.nodes)
    ensures var (r, ok) := CategoryStep(acc, cat);
            ok ==> CategoryCovered(r, cat)
  {
    var (r, ok) := CategoryStep(acc, cat);
    match IndexOfName(acc, cat.name)
    case None =>
      assert r[|acc|] == cat;
      forall j | 0 <= j < |acc|
        ensures r[j].name != cat.name
      {
        assert r[j] == acc[j];
      }
      assert IndexOfName(r, cat.name) == Some(|acc|);
      if cat.children.Present? {
        ChildrenCoveredSelf(cat.children.nodes);
      }
    case Some(k) =>
      CategoryStepCoversKnown(acc, cat);
  }

  lemma {:induction false} MergeCategoriesCoversAll(local: seq<Node>, remote: seq<Node>)
    requires UniqueChildKeys(remote)
    ensures var (r, ok) := MergeCategories(local, remote);
            ok ==> DocCovers(r, remote)
  {
    if remote != [] {
      var prefix := remote[..|remote| - 1];
      var cat := remote[|remote| - 1];
      var (acc, ok0) := MergeCategories(local, prefix);
      var (r, ok) := MergeCategories(local, remote);
      assert forall i :: 0 <= i < |prefix| ==> prefix[i] == remote[i];
      MergeCategoriesCoversAll(local, prefix);
      if ok {
        CategoryStepGrows(acc, cat);
        CategoryStepCovers(acc, cat);
        forall j | 0 <= j < |remote|
          ensures CategoryCovered(r, remote[j])
        {
          if j < |remote| - 1 {
            assert remote[j] == prefix[j];
            CategoryCoveredGrows(acc, r, prefix[j]);
          }
        }
      }
    }
  }

  /** A merge that completes leaves every remote category name present; under
      the first local category of that name every remote child key is
      present, and every remote technology's checklist texts are in the first
      local technology of that name. A remote category that is pushed whole
      is covered this way when it lists each child key once; with a repeated
      technology, the second one's texts stay in the second
      (RemergeNeedsUniqueKeys). */
  lemma MergeDataCovers(local: seq<Node>, remote: seq<Node>)
    requires UniqueChildKeys(remote)
    ensures var (r, ok) := MergeData(local, Some(remote));
            ok ==> forall j :: 0 <= j < |remote| ==> CategoryCovered(r, remote[j])
  {
    MergeCategoriesCoversAll(local, remote);
  }

  // ---------------------------------------------------------------------------
  // Merging what is already covered changes nothing: re-merging is idempotent
  // and deletions never propagate.

  lemma ChildStepCoveredNoop(acc: seq<Node>, item: Node)
    requires ChildCovered(acc, item)
    ensures ChildStep(acc, item) == acc
  {
    if item.kind == Technology && item.checklist.Some? {
      var k := IndexOfKey(acc, item.name, Technology).value;
      MergeChecklistItemsCovered(acc[k].checklist.value, item.checklist.value);
      assert acc[k].(checklist := Some(acc[k].checklist.value)) == acc[k];
      assert acc[k := acc[k]] == acc;
    }
  }

  lemma {:induction false} MergeChildrenCoveredNoop(local: seq<Node>, remote: seq<Node>)
    requires ChildrenCovered(local, remote)
    ensures MergeChildren(local, remote) == local
  {
    if remote != [] {
      var prefix := remote[..|remote| - 1];
      forall j | 0 <= j < |prefix|
        ensures ChildCovered(local, prefix[j])
      {
        assert prefix[j] == remote[j];
      }
      MergeChildrenCoveredNoop(local, prefix);
      ChildStepCoveredNoop(local, remote[|remote| - 1]);
    }
  }

  lemma CategoryStepCoveredNoop(doc: seq<Node>, c: Node)
    requires CategoryCovered(doc, c)
    ensures CategoryStep(doc, c) == (doc, true)
  {
    var k := IndexOfName(doc, c.name).value;
    if c.children.Present? && doc[k].children.Present? {
      if c.children.nodes != [] {
        MergeChildrenCoveredNoop(doc[k].children.nodes, c.children.nodes);
      }
      assert doc[k].(children := Present(doc[k].children.nodes)) == doc[k];
    }
    assert doc[k := doc[k]] == doc;
  }

  /** Merging a remote copy whose every category is covered changes nothing. */
  lemma {:induction false} MergeCategoriesCoveredNoop(doc: seq<Node>, remote: seq<Node>)
    requires DocCovers(doc, remote)
    ensures MergeCategories(doc, remote) == (doc, true)
  {
    if remote != [] {
      var prefix := remote[..|remote| - 1];
      forall j | 0 <= j < |prefix|
        ensures CategoryCovered(doc, prefix[j])
      {
        assert prefix[j] == remote[j];
      }
      MergeCategoriesCoveredNoop(doc, prefix);
      CategoryStepCoveredNoop(doc, remote[|remote| - 1]);
    }
  }

  /** Two sync cycles with the same remote copy give the same document as
      one, when the remote's categories list each child key once. */
  lemma MergeDataIdempotent(local: seq<Node>, remote: seq<Node>)
    requires UniqueChildKeys(remote) && MergeData(local, Some(remote)).1
    ensures var r := MergeData(local, Some(remote)).0;
            MergeData(r, Some(remote)) == (r, true)
  {
    MergeCategoriesCoversAll(local, remote);
    MergeCategoriesCoveredNoop(MergeData(local, Some(remote)).0, remote);
  }

  /** With a technology repeated inside a new remote category, the category is
      pushed whole, and the next merge folds the second technology's checklist
      into the first: a second sync cycle changes the document. */
  lemma RemergeNeedsUniqueKeys()
    ensures var i1 := ChecklistItem("p", false);
            var i2 := ChecklistItem("q", false);
            var t1 := Node(None, "x", Technology, Absent, false, Some([i1]), None, None, None);
            var t2 := Node(None, "x", Technology, Absent, false, Some([i2]), None, None, None);
            var a := Node(None, "a", Category, Present([t1, t2]), false, None, None, None, None);
            MergeData([], Some([a])) == ([a], true) &&
            MergeData([a], Some([a])) == ([a.(children := Present([t1.(checklist := Some([i1, i2])), t2]))], true)
  {
    var i1 := ChecklistItem("p", false);
    var i2 := ChecklistItem("q", false);
    var t1 := Node(None, "x", Technology, Absent, false, Some([i1]), None, None, None);
    var t2 := Node(None, "x", Technology, Absent, false, Some([i2]), None, None, None);
    var a := Node(None, "a", Category, Present([t1, t2]), false, None, None, None, None);
    assert [a][..0] == [] && [t1, t2][..1] == [t1] && [t1, t2][..0] == [] && [i1][..0] == [] && [i2][..0] == [];
    assert MergeCategories([], []) == ([], true);
    assert IndexOfName([], "a") == None;
    assert CategoryStep([], a) == ([] + [a], true);
    assert [] + [a] == [a];
    assert MergeCategories([], [a]) == ([a], true);
    assert IndexOfKey([t1, t2], "x", Technology) == Some(0);
    assert HasText([i1], "p") by {
      assert [i1][0].text == "p";
    }
    assert MergeChecklistItems([i1], [i1]) == [i1];
    assert t1.(checklist := Some([i1])) == t1;
    assert MergeChildren([t1, t2], [t1]) == [t1, t2];
    assert !HasText([i1], "q");
    assert MergeChecklistItems([i1], [i2]) == [i1, i2];
    assert MergeChildren([t1, t2], [t1, t2]) == [t1.(checklist := Some([i1, i2])), t2];
    var a2 := a.(children := Present([t1.(checklist := Some([i1, i2])), t2]));
    assert MergeTechnologies(a, a) == (a2, true);
    assert IndexOfName([a], "a") == Some(0);
    assert [a][0 := a2] == [a2];
    assert MergeCategories([a], [a]) == CategoryStep([a], a) == ([a2], true);
  }

  /** `c` is what deleting children or checklist items from the category `l` leaves. */
  predicate PrunedFrom(c: Node, l: Node) {
    c.name == l.name &&
    (c.children.Present? && c.children.nodes != [] ==>
       l.children.Present? &&
       forall j :: 0 <= j < |c.children.nodes| ==> ChildPrunedFrom(c.children.nodes[j], l.children.nodes))
  }

  /** `t` keeps the key of one of `nodes` and, for a technology, only items of its checklist. */
  predicate ChildPrunedFrom(t: Node, nodes: seq<Node>) {
    exists i :: 0 <= i < |nodes| && nodes[i].name == t.name && nodes[i].kind == t.kind &&
                (t.kind == Technology && t.checklist.Some? ==>
                   nodes[i].checklist.Some? && forall it :: it in t.checklist.value ==> it in nodes[i].checklist.value)
  }

  lemma PrunedCovered(local: seq<Node>, i: nat, c: Node)
    requires WellKeyed(local) && i < |local| && PrunedFrom(c, local[i])
    ensures CategoryCovered(local, c)
  {
    assert IndexOfName(local, c.name) == Some(i);
    if c.children.Present? && c.children.nodes != [] {
      var nodes := local[i].children.nodes;
      assert UniqueKeys(nodes);
      forall j | 0 <= j < |c.children.nodes|
        ensures ChildCovered(nodes, c.children.nodes[j])
      {
        var t := c.children.nodes[j];
        assert ChildPrunedFrom(t, nodes);
        var m :| 0 <= m < |nodes| && nodes[m].name == t.name && nodes[m].kind == t.kind &&
                 (t.kind == Technology && t.checklist.Some? ==>
                    nodes[m].checklist.Some? && forall it :: it in t.checklist.value ==> it in nodes[m].checklist.value);
        if t.kind == Technology && t.checklist.Some? {
          assert IndexOfKey(nodes, t.name, Technology) == Some(m);
          forall w | 0 <= w < |t.checklist.value|
            ensures HasText(nodes[m].checklist.value, t.checklist.value[w].text)
          {
            assert t.checklist.value[w] in nodes[m].checklist.value;
          }
        }
      }
    }
  }

  /** Deletions never propagate: a remote copy made of categories of a
      well-keyed local document, with any categories, children or checklist
      items deleted, in any order and with repeats, merges to the local
      document unchanged. */
  lemma NoDeletionPropagation(local: seq<Node>, remote: seq<Node>)
    requires WellKeyed(local)
    requires forall j :: 0 <= j < |remote| ==> exists i :: 0 <= i < |local| && PrunedFrom(remote[j], local[i])
    ensures MergeData(local, Some(remote)) == (local, true)
  {
    forall j | 0 <= j < |remote|
      ensures CategoryCovered(local, remote[j])
    {
      var i :| 0 <= i < |local| && PrunedFrom(remote[j], local[i]);
      PrunedCovered(local, i, remote[j]);
    }
    MergeCategoriesCoveredNoop(local, remote);
  }

  // ---------------------------------------------------------------------------
  // Depth. The children loop merges the checklist of a known technology but
  // leaves a known sub-category as it is, so whatever is new below a
  // sub-category that both copies have is dropped.

  /** A technology added remotely under a sub-category that the local copy
      also has is lost, although the merge completes. */
  lemma NestedItemsLost()
    ensures var t := Node(None, "t", Technology, Absent, false, None, None, None, None);
            var s0 := Node(None, "s", Category, Present([]), false, None, None, None, None);
            var a0 := Node(None, "a", Category, Present([s0]), false, None, None, None, None);
            var a1 := a0.(children := Present([s0.(children := Present([t]))]));
            MergeData([a0], Some([a1])) == ([a0], true)
  {
    var t := Node(None, "t", Technology, Absent, false, None, None, None, None);
    var s0 := Node(None, "s", Category, Present([]), false, None, None, None, None);
    var s1 := s0.(children := Present([t]));
    var a0 := Node(None, "a", Category, Present([s0]), false, None, None, None, None);
    var a1 := a0.(children := Present([s1]));
    assert [a1][..0] == [] && [s1][..0] == [];
    assert IndexOfKey([s0], "s", Category) == Some(0);
    assert MergeChildren([s0], [s1]) == ChildStep([s0], s1) == [s0];
    assert a0.(children := Present([s0])) == a0;
    assert MergeTechnologies(a0, a1) == (a0, true);
    assert IndexOfName([a0], "a") == Some(0);
    assert [a0][0 := a0] == [a0];
    assert MergeCategories([a0], [a1]) == CategoryStep([a0], a1) == ([a0], true);
  }

  /** The children loop as evidently intended: a known sub-category is merged
      recursively, like a top-level category, with missing `children` taken
      as empty. */
  function DeepMergeChildren(local: seq<Node>, remote: seq<Node>): seq<Node>
    decreases remote
  {
    if remote == [] then local
    else DeepChildStep(DeepMergeChildren(local, remote[..|remote| - 1]), remote[|remote| - 1])
  }

  function DeepChildStep(acc: seq<Node>, item: Node): seq<Node>
    decreases item, 0
  {
    match IndexOfKey(acc, item.name, item.kind)
    case None => acc + [item]
    case Some(k) =>
      if item.kind == Technology then MergeChecklists(acc, item)
      else if item.children.Absent? then acc
      else
        var below := if acc[k].children.Present? then acc[k].children.nodes else [];
        acc[k := acc[k].(children := Present(DeepMergeChildren(below, item.children.nodes)))]
  }

  /** Growth at every depth: each node keeps its position, name and type; its
      checklist only grows at its end, and its children grow the same way. */
  predicate DeepGrows(a: seq<Node>, b: seq<Node>)
    decreases a
  {
    |a| <= |b| && forall i :: 0 <= i < |a| ==> NodeGrowsDeep(a[i], b[i])
  }

  predicate NodeGrowsDeep(x: Node, y: Node)
    decreases x
  {
    y.name == x.name && y.kind == x.kind &&
    (x.checklist.Some? ==> y.checklist.Some? && x.checklist.value <= y.checklist.value) &&
    (x.children.Present? ==> y.children.Present? && DeepGrows(x.children.nodes, y.children.nodes))
  }

  /** Coverage at every depth: some node has the remote node's (name, type)
      key and holds what it holds. */
  predicate DeepCovered(nodes: seq<Node>, t: Node)
    decreases t, 2
  {
    exists k :: 0 <= k < |nodes| && nodes[k].name == t.name && nodes[k].kind == t.kind && DeepCoveredAt(nodes[k], t)
  }

  /** `n` holds the checklist texts of a remote technology `t`, or covers the
      children of a remote category `t` at every depth. */
  predicate DeepCoveredAt(n: Node, t: Node)
    decreases t, 1
  {
    (t.kind == Technology && t.checklist.Some? ==>
       n.checklist.Some? && CoversTexts(n.checklist.value, t.checklist.value)) &&
    (t.kind == Category && t.children.Present? ==>
       n.children.Present? && DeepAllCovered(n.children.nodes, t.children.nodes))
  }

  predicate DeepAllCovered(nodes: seq<Node>, remote: seq<Node>)
    decreases remote
  {
    forall j :: 0 <= j < |remote| ==> DeepCovered(nodes, remote[j])
  }

  lemma DeepGrowsRefl(a: seq<Node>)
    ensures DeepGrows(a, a)
    decreases a
  {
    forall i | 0 <= i < |a|
      ensures NodeGrowsDeep(a[i], a[i])
    {
      NodeGrowsDeepRefl(a[i]);
    }
  }

  lemma NodeGrowsDeepRefl(x: Node)
    ensures NodeGrowsDeep(x, x)
    decreases x
  {
    if x.children.Present? {
      DeepGrowsRefl(x.children.nodes);
    }
  }

  lemma DeepGrowsTrans(a: seq<Node>, b: seq<Node>, c: seq<Node>)
    requires DeepGrows(a, b) && DeepGrows(b, c)
    ensures DeepGrows(a, c)
    decreases a
  {
    forall i | 0 <= i < |a|
      ensures NodeGrowsDeep(a[i], c[i])
    {
      NodeGrowsDeepTrans(a[i], b[i], c[i]);
    }
  }

  lemma NodeGrowsDeepTrans(x: Node, y: Node, z: Node)
    requires NodeGrowsDeep(x, y) && NodeGrowsDeep(y, z)
    ensures NodeGrowsDeep(x, z)
    decreases x
  {
    if x.checklist.Some? {
      assert x.checklist.value <= y.checklist.value <= z.checklist.value;
    }
    if x.children.Present? {
      DeepGrowsTrans(x.children.nodes, y.children.nodes, z.children.nodes);
    }
  }

  lemma DeepAllCoveredGrows(a: seq<Node>, b: seq<Node>, remote: seq<Node>)
    requires DeepGrows(a, b) && DeepAllCovered(a, remote)
    ensures DeepAllCovered(b, remote)
    decreases remote
  {
    forall j | 0 <= j < |remote|
      ensures DeepCovered(b, remote[j])
    {
      DeepCoveredGrows(a, b, remote[j]);
    }
  }

  lemma DeepCoveredGrows(a: seq<Node>, b: seq<Node>, t: Node)
    requires DeepGrows(a, b) && DeepCovered(a, t)
    ensures DeepCovered(b, t)
    decreases t, 2
  {
    var k :| 0 <= k < |a| && a[k].name == t.name && a[k].kind == t.kind && DeepCoveredAt(a[k], t);
    assert NodeGrowsDeep(a[k], b[k]);
    DeepCoveredAtGrows(a[k], b[k], t);
  }

  lemma DeepCoveredAtGrows(x: Node, y: Node, t: Node)
    requires NodeGrowsDeep(x, y) && DeepCoveredAt(x, t)
    ensures DeepCoveredAt(y, t)
    decreases t, 1
  {
    if t.kind == Technology && t.checklist.Some? {
      CoversTextsGrows(x.checklist.value, y.checklist.value, t.checklist.value);
    }
    if t.kind == Category && t.children.Present? {
      DeepAllCoveredGrows(x.children.nodes, y.children.nodes, t.children.nodes);
    }
  }

  /** Every node covers itself at every depth. */
  lemma DeepAllCoveredSelf(nodes: seq<Node>)
    ensures DeepAllCovered(nodes, nodes)
    decreases nodes
  {
    forall j | 0 <= j < |nodes|
      ensures DeepCovered(nodes, nodes[j])
    {
      DeepCoveredAtSelf(nodes[j]);
    }
  }

  lemma DeepCoveredAtSelf(t: Node)
    ensures DeepCoveredAt(t, t)
    decreases t, 1
  {
    if t.kind == Technology && t.checklist.Some? {
      forall i | 0 <= i < |t.checklist.value|
        ensures HasText(t.checklist.value, t.checklist.value[i].text)
      {
      }
    }
    if t.kind == Category && t.children.Present? {
      DeepAllCoveredSelf(t.children.nodes);
    }
  }

  lemma DeepChildStepGrows(acc: seq<Node>, item: Node)
    ensures DeepGrows(acc, DeepChildStep(acc, item))
    decreases item, 0
  {
    var r := DeepChildStep(acc, item);
    match IndexOfKey(acc, item.name, item.kind)
    case None =>
      forall i | 0 <= i < |acc|
        ensures NodeGrowsDeep(acc[i], r[i])
      {
        assert r[i] == acc[i];
        NodeGrowsDeepRefl(acc[i]);
      }
    case Some(k) =>
      if item.kind == Technology {
        MergeChecklistsSpec(acc, item);
        forall i | 0 <= i < |acc|
          ensures NodeGrowsDeep(acc[i], r[i])
        {
          assert ChecklistGrows(acc[i], r[i]);
          if acc[i].children.Present? {
            DeepGrowsRefl(acc[i].children.nodes);
          }
        }
      } else if item.children.Absent? {
        DeepGrowsRefl(acc);
      } else {
        var below := if acc[k].children.Present? then acc[k].children.nodes else [];
        DeepMergeChildrenGrows(below, item.children.nodes);
        forall i | 0 <= i < |acc|
          ensures NodeGrowsDeep(acc[i], r[i])
        {
          if i != k {
            NodeGrowsDeepRefl(acc[i]);
          } else if acc[k].checklist.Some? {
            assert r[k].checklist == acc[k].checklist;
          }
        }
      }
  }

  lemma DeepMergeChildrenGrows(local: seq<Node>, remote: seq<Node>)
    ensures DeepGrows(local, DeepMergeChildren(local, remote))
    decreases remote
  {
    if remote == [] {
      DeepGrowsRefl(local);
    } else {
      var acc := DeepMergeChildren(local, remote[..|remote| - 1]);
      DeepMergeChildrenGrows(local, remote[..|remote| - 1]);
      DeepChildStepGrows(acc, remote[|remote| - 1]);
      DeepGrowsTrans(local, acc, DeepMergeChildren(local, remote));
    }
  }

  lemma DeepChildStepCovers(acc: seq<Node>, item: Node)
    ensures DeepCovered(DeepChildStep(acc, item), item)
    decreases item, 0
  {
    var r := DeepChildStep(acc, item);
    match IndexOfKey(acc, item.name, item.kind)
    case None =>
      assert r[|acc|] == item;
      DeepCoveredAtSelf(item);
    case Some(k) =>
      if item.kind == Technology {
        MergeChecklistsSpec(acc, item);
        assert r[k].name == acc[k].name && r[k].kind == acc[k].kind;
        if item.checklist.Some? {
          assert IndexOfKey(r, item.name, Technology) == Some(k);
        }
        assert DeepCoveredAt(r[k], item);
      } else if item.children.Absent? {
        assert DeepCoveredAt(r[k], item);
      } else {
        var below := if acc[k].children.Present? then acc[k].children.nodes else [];
        DeepMergeChildrenCovers(below, item.children.nodes);
        assert DeepCoveredAt(r[k], item);
      }
  }

  /** With the recursive step, every remote node, at every depth, is covered
      after merging: its (name, type) key is present along its path, and a
      technology's checklist texts are all there. */
  lemma DeepMergeChildrenCovers(local: seq<Node>, remote: seq<Node>)
    ensures DeepAllCovered(DeepMergeChildren(local, remote), remote)
    decreases remote
  {
    if remote != [] {
      var prefix := remote[..|remote| - 1];
      var item := remote[|remote| - 1];
      var acc := DeepMergeChildren(local, prefix);
      var r := DeepMergeChildren(local, remote);
      DeepMergeChildrenCovers(local, prefix);
      DeepChildStepGrows(acc, item);
      DeepAllCoveredGrows(acc, r, prefix);
      DeepChildStepCovers(acc, item);
      forall j | 0 <= j < |remote|
        ensures DeepCovered(r, remote[j])
      {
        if j < |remote| - 1 {
          assert remote[j] == prefix[j];
        }
      }
    }
  }

  /** The loop as written misses that coverage: the remote sub-category's
      technology is not covered after NestedItemsLost's merge. */
  lemma NestedItemsNotCovered()
    ensures var t := Node(None, "t", Technology, Absent, false, None, None, None, None);
            var s0 := Node(None, "s", Category, Present([]), false, None, None, None, None);
            var s1 := s0.(children := Present([t]));
            !DeepAllCovered(MergeChildren([s0], [s1]), [s1]) && DeepAllCovered(DeepMergeChildren([s0], [s1]), [s1])
  {
    var t := Node(None, "t", Technology, Absent, false, None, None, None, None);
    var s0 := Node(None, "s", Category, Present([]), false, None, None, None, None);
    var s1 := s0.(children := Present([t]));
    assert [s1][..0] == [];
    assert IndexOfKey([s0], "s", Category) == Some(0);
    assert MergeChildren([s0], [s1]) == ChildStep([s0], s1) == [s0];
    assert !DeepCovered([], [t][0]);
    assert !DeepCoveredAt([s0][0], s1);
    assert !DeepCovered([s0], [s1][0]);
    DeepMergeChildrenCovers([s0], [s1]);
  }
}
