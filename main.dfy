/** The page-level handler window.toggleChecklistItem: flips one checklist
    item of the technology at (path, techIndex) in the shared document. */
module PageHandlers {
  import opened Util
  import opened Tree
  import DataManager
  import opened ChecklistManager

  /** window.toggleChecklistItem */
  method ToggleChecklistItem(doc: TechData, path: seq<int>, techIndex: int, itemIndex: nat)
    modifies doc
    ensures doc.categories == EditTech(old(doc.categories), path, techIndex, Toggle(itemIndex))
  {
    var parent := DataManager.GetNodeByPath(doc, path);
    if parent.NotFound? {
      return;
    }
    if !(0 <= techIndex < |parent.siblings|) {
      return;
    }
    var tech := parent.siblings[techIndex];
    if tech.checklist.None? || |tech.checklist.value| <= itemIndex {
      EditTechNoOp(doc.categories, path, techIndex, Toggle(itemIndex));
      return;
    }
    var items := tech.checklist.value;
    var flipped := items[itemIndex := items[itemIndex].(completed := !items[itemIndex].completed)];
    doc.categories := SetNodeAt(doc.categories, path, techIndex, tech.(checklist := Some(flipped)));
  }

  /** The handler flips `completed` of exactly the addressed item when the
      path resolves, the technology exists, it has a checklist and the index
      is in range; the other items, the technology's other fields, its
      siblings and every array off the path are unchanged. In every other
      case the document is unchanged. */
  lemma ToggleChecklistItemSpec(roots: seq<Node>, path: seq<int>, techIndex: int, itemIndex: nat)
    ensures var r := EditTech(roots, path, techIndex, Toggle(itemIndex));
            var t := NodeAt(roots, path, techIndex);
            if t.None? || t.value.checklist.None? || itemIndex >= |t.value.checklist.value| then r == roots
            else
              var u := t.value.(checklist := Some(ItemToggled(t.value.checklist.value, itemIndex)));
              NodeAt(r, path, techIndex) == Some(u) &&
              Resolve(r, path) == Found(Resolve(roots, path).siblings[techIndex := u], true) &&
              (forall q :: Diverge(path, q) ==> Resolve(r, q) == Resolve(roots, q))
  {
    var t := NodeAt(roots, path, techIndex);
    if t.None? || t.value.checklist.None? || itemIndex >= |t.value.checklist.value| {
      EditTechNoOp(roots, path, techIndex, Toggle(itemIndex));
    } else {
      EditTechSpec(roots, path, techIndex, Toggle(itemIndex));
    }
  }
}
