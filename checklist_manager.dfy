/** checklistManager: the checklist of one technology, addressed by the
    current (path, techIndex) location, edited in place. Prompt and confirm
    answers and the text field are parameters; rendering is not modelled. */
module ChecklistManager {
  import opened Util
  import opened Tree
  import DataManager

  /** One in-place change to a technology's checklist. */
  datatype ItemEdit =
    | Init                        // manageChecklist: create a missing checklist
    | Toggle(i: nat)              // flip `completed` of item i
    | Add(text: string)           // push {text, completed: false}
    | Remove(i: nat)              // splice(i, 1)
    | SetText(i: nat, text: string)

  /** The checklist with item i's `completed` flipped. */
  function ItemToggled(items: seq<ChecklistItem>, i: nat): (r: seq<ChecklistItem>)
    requires i < |items|
    ensures |r| == |items| && r[i].text == items[i].text && r[i].completed == !items[i].completed
    ensures forall j :: 0 <= j < |r| && j != i ==> r[j] == items[j]
  {
    items[i := items[i].(completed := !items[i].completed)]
  }

  /** The checklist without item i, the others in their relative order. */
  function ItemRemoved(items: seq<ChecklistItem>, i: nat): (r: seq<ChecklistItem>)
    requires i < |items|
    ensures |r| == |items| - 1
    ensures forall j :: 0 <= j < i ==> r[j] == items[j]
    ensures forall j :: i <= j < |r| ==> r[j] == items[j + 1]
    ensures multiset(r) + multiset{items[i]} == multiset(items)
  {
    assert items == items[..i] + [items[i]] + items[i + 1..];
    items[..i] + items[i + 1..]
  }

  /** The checklist with item i's text replaced and its flag kept. */
  function ItemRetexted(items: seq<ChecklistItem>, i: nat, text: string): (r: seq<ChecklistItem>)
    requires i < |items|
    ensures |r| == |items| && r[i].text == text && r[i].completed == items[i].completed
    ensures forall j :: 0 <= j < |r| && j != i ==> r[j] == items[j]
  {
    items[i := items[i].(text := text)]
  }

  /** The effect of one edit on the technology node; an index the guard
      `checklist && checklist.length > i` rejects leaves the node unchanged. */
  function ApplyEdit(t: Node, e: ItemEdit): Node {
    match e
    case Init => if t.checklist.None? then t.(checklist := Some([])) else t
    case Add(text) => t.(checklist := Some(t.checklist.GetOr([]) + [ChecklistItem(text, false)]))
    case Toggle(i) =>
      if t.checklist.Some? && i < |t.checklist.value| then t.(checklist := Some(ItemToggled(t.checklist.value, i))) else t
    case Remove(i) =>
      if t.checklist.Some? && i < |t.checklist.value| then t.(checklist := Some(ItemRemoved(t.checklist.value, i))) else t
    case SetText(i, text) =>
      if t.checklist.Some? && i < |t.checklist.value| then t.(checklist := Some(ItemRetexted(t.checklist.value, i, text))) else t
  }

  /** The document after applying `e` to the technology at (path, techIndex);
      unchanged when getTechnology finds nothing. */
  function EditTech(roots: seq<Node>, path: seq<int>, techIndex: int, e: ItemEdit): seq<Node> {
    match NodeAt(roots, path, techIndex)
    case None => roots
    case Some(t) => SetNodeAt(roots, path, techIndex, ApplyEdit(t, e))
  }

  /** Counts behind renderChecklist's progress line. */
  datatype Progress = Progress(completed: nat, total: nat, percent: nat)

  function CountCompleted(items: seq<ChecklistItem>): (c: nat)
    ensures c <= |items|
    ensures c == |items| <==> forall j :: 0 <= j < |items| ==> items[j].completed
    ensures c == 0 <==> forall j :: 0 <= j < |items| ==> !items[j].completed
  {
    if items == [] then 0
    else CountCompleted(items[..|items| - 1]) + (if items[|items| - 1].completed then 1 else 0)
  }

  /** The positions of the completed items. */
  function CompletedAt(items: seq<ChecklistItem>): set<nat> {
    set j: nat | j < |items| && items[j].completed
  }

  /** `filter(i => i.completed).length` counts the completed positions. */
  lemma {:induction false} CountCompletedIsCount(items: seq<ChecklistItem>)
    ensures CountCompleted(items) == |CompletedAt(items)|
  {
    if items != [] {
      var n := |items| - 1;
      CountCompletedIsCount(items[..n]);
      CompletedAtSnoc(items);
    }
  }

  lemma CompletedAtSnoc(items: seq<ChecklistItem>)
    requires items != []
    ensures var n := |items| - 1;
            n !in CompletedAt(items[..n]) &&
            CompletedAt(items) == CompletedAt(items[..n]) + (if items[n].completed then {n} else {})
  {
    var n := |items| - 1;
    var before := CompletedAt(items[..n]);
    forall j: nat | j < n
      ensures items[j] == items[..n][j]
    {
    }
    assert n !in before;
  }

  /** d * k grows with k. */
  lemma MulStep(d: int, k: nat)
    requires d > 0 && k >= 1
    ensures d * k >= d
  {
    var i := 1;
    while i < k
      invariant 1 <= i <= k && d * i >= d
    {
      assert d * (i + 1) == d * i + d;
      i := i + 1;
    }
  }

  /** Euclidean division is determined by its quotient's bounds. */
  lemma DivUnique(n: int, d: int, q: int)
    requires d > 0 && d * q <= n < d * q + d
    ensures n / d == q
  {
    var r := n / d;
    assert d * r <= n < d * r + d;
    if r < q {
      MulStep(d, q - r);
    } else if r > q {
      MulStep(d, r - q);
    }
  }

  /** Math.round((completed / total) * 100), with the exact ratio in place of the float. */
  function RoundedPercent(completed: nat, total: nat): (p: nat)
    requires completed <= total
    ensures total == 0 ==> p == 0
    ensures p <= 100
    ensures total > 0 ==> 200 * completed - total < 2 * p * total <= 200 * completed + total
    ensures completed == 0 ==> p == 0
    ensures 0 < completed == total ==> p == 100
  {
    if total == 0 then 0
    else
      var p := (200 * completed + total) / (2 * total);
      RoundingFacts(completed, total, p);
      p
  }

  /** Rounding half up of 100 * completed / total, as the nearest integer
      to the exact ratio, at most 100, and exact at both ends. */
  lemma RoundingFacts(completed: nat, total: nat, p: int)
    requires completed <= total && total > 0 && p == (200 * completed + total) / (2 * total)
    ensures 0 <= p <= 100
    ensures 200 * completed - total < 2 * p * total <= 200 * completed + total
    ensures completed == 0 ==> p == 0
    ensures completed == total ==> p == 100
  {
    var d := 2 * total;
    assert d * p <= 200 * completed + total < d * p + d;
    assert 2 * p * total == d * p;
    if p > 100 {
      MulStep(d, p - 100);
    }
    if completed == 0 {
      DivUnique(total, d, 0);
    }
    if completed == total {
      assert 200 * completed + total == 201 * total;
      DivUnique(201 * total, d, 100);
    }
  }

  /** The completed/total/percent shown under the checklist of `t`. */
  function ChecklistProgress(t: Node): (p: Progress)
    ensures p.completed <= p.total
    ensures t.checklist.None? ==> p == Progress(0, 0, 0)
    ensures t.checklist.Some? ==> p.total == |t.checklist.value|
    ensures p.total == 0 ==> p.percent == 0
    ensures p.percent <= 100
    ensures p.completed == 0 ==> p.percent == 0
    ensures p.total > 0 && p.completed == p.total ==> p.percent == 100
    ensures t.checklist.Some? ==> p.completed == |CompletedAt(t.checklist.value)|
    ensures p.total > 0 ==> 200 * p.completed - p.total < 2 * p.percent * p.total <= 200 * p.completed + p.total
  {
    var items := t.checklist.GetOr([]);
    CountCompletedIsCount(items);
    var c := CountCompleted(items);
    Progress(c, |items|, RoundedPercent(c, |items|))
  }

  /** The checklist state: the location `currentChecklist` points at and the
      shared document it edits. */
  class ChecklistManager {
    const doc: TechData
    var path: seq<int>
    var techIndex: int

    constructor (doc: TechData)
      ensures this.doc == doc && path == [] && techIndex == -1
    {
      this.doc := doc;
      path := [];
      techIndex := -1;
    }

    /** getTechnology */
    method GetTechnology() returns (r: Option<Node>)
      ensures r == NodeAt(doc.categories, path, techIndex)
    {
      var parent := DataManager.GetNodeByPath(doc, path);
      if parent.Found? && 0 <= techIndex < |parent.siblings| {
        r := Some(parent.siblings[techIndex]);
      } else {
        r := None;
      }
    }

    /** Writes `e` into the technology at the current location, if any. */
    method ApplyAtCurrent(e: ItemEdit)
      modifies doc
      ensures doc.categories == EditTech(old(doc.categories), path, techIndex, e)
    {
      var tech := GetTechnology();
      if tech.Some? {
        doc.categories := SetNodeAt(doc.categories, path, techIndex, ApplyEdit(tech.value, e));
      }
    }

    /** manageChecklist: select the technology and create its checklist if missing. */
    method ManageChecklist(path: seq<int>, techIndex: int)
      modifies this, doc
      ensures this.path == path && this.techIndex == techIndex
      ensures doc.categories == EditTech(old(doc.categories), path, techIndex, Init)
    {
      this.path, this.techIndex := path, techIndex;
      ApplyAtCurrent(Init);
    }

    /** toggleChecklistItem */
    method ToggleItem(path: seq<int>, techIndex: int, itemIndex: nat)
      modifies this, doc
      ensures this.path == path && this.techIndex == techIndex
      ensures doc.categories == EditTech(old(doc.categories), path, techIndex, Toggle(itemIndex))
    {
      this.path, this.techIndex := path, techIndex;
      ApplyAtCurrent(Toggle(itemIndex));
    }

    /** addChecklistItem: `input` is the text field's value. */
    method AddItem(input: string)
      modifies doc
      ensures Trim(input) == "" ==> doc.categories == old(doc.categories)
      ensures Trim(input) != "" ==> doc.categories == EditTech(old(doc.categories), path, techIndex, Add(Trim(input)))
    {
      var text := Trim(input);
      if text != "" {
        ApplyAtCurrent(Add(text));
      }
    }

    /** addChecklistItemInAccordion: `answer` is what prompt() returned. */
    method AddItemInAccordion(path: seq<int>, techIndex: int, answer: Option<string>)
      modifies this, doc
      ensures this.path == path && this.techIndex == techIndex
      ensures answer.None? || Trim(answer.value) == "" ==> doc.categories == old(doc.categories)
      ensures answer.Some? && Trim(answer.value) != "" ==>
                doc.categories == EditTech(old(doc.categories), path, techIndex, Add(Trim(answer.value)))
    {
      this.path, this.techIndex := path, techIndex;
      if answer.Some? && answer.value != "" && Trim(answer.value) != "" {
        ApplyAtCurrent(Add(Trim(answer.value)));
      }
    }

    /** removeChecklistItem */
    method RemoveItem(index: nat)
      modifies doc
      ensures doc.categories == EditTech(old(doc.categories), path, techIndex, Remove(index))
    {
      ApplyAtCurrent(Remove(index));
    }

    /** removeChecklistItemInAccordion: `confirmed` is the answer to confirm(). */
    method RemoveItemInAccordion(path: seq<int>, techIndex: int, itemIndex: nat, confirmed: bool)
      modifies this, doc
      ensures this.path == path && this.techIndex == techIndex
      ensures doc.categories == if confirmed then EditTech(old(doc.categories), path, techIndex, Remove(itemIndex))
                                else old(doc.categories)
    {
      this.path, this.techIndex := path, techIndex;
      if confirmed {
        ApplyAtCurrent(Remove(itemIndex));
      }
    }

    /** editChecklistItem: `answer` is what prompt() returned (None when cancelled);
        the trimmed answer is stored even when it is blank. */
    method EditItem(index: nat, answer: Option<string>)
      modifies doc
      ensures answer.None? ==> doc.categories == old(doc.categories)
      ensures answer.Some? ==> doc.categories == EditTech(old(doc.categories), path, techIndex, SetText(index, Trim(answer.value)))
    {
      if answer.Some? {
        ApplyAtCurrent(SetText(index, Trim(answer.value)));
      }
    }

    /** editChecklistItemInAccordion */
    method EditItemInAccordion(path: seq<int>, techIndex: int, itemIndex: nat, answer: Option<string>)
      modifies this, doc
      ensures this.path == path && this.techIndex == techIndex
      ensures answer.None? ==> doc.categories == old(doc.categories)
      ensures answer.Some? ==>
                doc.categories == EditTech(old(doc.categories), path, techIndex, SetText(itemIndex, Trim(answer.value)))
    {
      this.path, this.techIndex := path, techIndex;
      EditItem(itemIndex, answer);
    }
  }

  // ---------------------------------------------------------------------------
  // What the edits do.

  /** Every edit touches only `checklist`: the node's other fields are kept. */
  lemma ApplyEditKeepsNode(t: Node, e: ItemEdit)
    ensures var u := ApplyEdit(t, e);
            u.id == t.id && u.name == t.name && u.kind == t.kind && u.children == t.children &&
            u.completed == t.completed && u.content == t.content && u.media == t.media && u.links == t.links
  {
  }

  /** An edit applied to an existing technology reads back at its location,
      and every array off the path is unchanged; with no technology there the
      document is unchanged. */
  lemma EditTechSpec(roots: seq<Node>, path: seq<int>, techIndex: int, e: ItemEdit)
    ensures var r := EditTech(roots, path, techIndex, e);
            match NodeAt(roots, path, techIndex)
            case None => r == roots
            case Some(t) =>
              NodeAt(r, path, techIndex) == Some(ApplyEdit(t, e)) &&
              Resolve(r, path) == Found(Resolve(roots, path).siblings[techIndex := ApplyEdit(t, e)], true) &&
              (forall q :: Diverge(path, q) ==> Resolve(r, q) == Resolve(roots, q))
  {
    if NodeAt(roots, path, techIndex).Some? {
      SetNodeAtSpec(roots, path, techIndex, ApplyEdit(NodeAt(roots, path, techIndex).value, e));
    }
  }

  /** An edit whose guard fails (no checklist, or an index past its end)
      leaves the whole document unchanged. */
  lemma EditTechNoOp(roots: seq<Node>, path: seq<int>, techIndex: int, e: ItemEdit)
    requires e.Toggle? || e.Remove? || e.SetText?
    requires NodeAt(roots, path, techIndex).Some? ==>
               NodeAt(roots, path, techIndex).value.checklist.None? ||
               e.i >= |NodeAt(roots, path, techIndex).value.checklist.value|
    ensures EditTech(roots, path, techIndex, e) == roots
  {
    if NodeAt(roots, path, techIndex).Some? {
      SetNodeAtAlgebra(roots, path, techIndex, NodeAt(roots, path, techIndex).value, NodeAt(roots, path, techIndex).value);
    }
  }

  /** Adding appends exactly one unchecked item and keeps the existing ones. */
  lemma AddAppendsOne(t: Node, text: string)
    ensures var u := ApplyEdit(t, Add(text));
            u.checklist.Some? &&
            u.checklist.value == t.checklist.GetOr([]) + [ChecklistItem(text, false)]
  {
  }

  /** manageChecklist's initialisation creates an empty checklist only when
      it is missing, and repeating it changes nothing. */
  lemma InitSpec(t: Node)
    ensures t.checklist.None? ==> ApplyEdit(t, Init).checklist == Some([])
    ensures t.checklist.Some? ==> ApplyEdit(t, Init) == t
    ensures ApplyEdit(ApplyEdit(t, Init), Init) == ApplyEdit(t, Init)
  {
  }

  /** Toggling the same item twice restores the document. */
  lemma ToggleTwice(roots: seq<Node>, path: seq<int>, techIndex: int, itemIndex: nat)
    ensures EditTech(EditTech(roots, path, techIndex, Toggle(itemIndex)), path, techIndex, Toggle(itemIndex)) == roots
  {
    if NodeAt(roots, path, techIndex).Some? {
      var t := NodeAt(roots, path, techIndex).value;
      var t1 := ApplyEdit(t, Toggle(itemIndex));
      SetNodeAtSpec(roots, path, techIndex, t1);
      SetNodeAtAlgebra(roots, path, techIndex, t1, ApplyEdit(t1, Toggle(itemIndex)));
      SetNodeAtAlgebra(roots, path, techIndex, t, t);
      if t.checklist.Some? && itemIndex < |t.checklist.value| {
        var cl := t.checklist.value;
        assert ItemToggled(ItemToggled(cl, itemIndex), itemIndex) == cl;
      }
      assert ApplyEdit(t1, Toggle(itemIndex)) == t;
    }
  }

  /** Adding an item and then removing the last one restores the technology. */
  lemma AddThenRemoveLast(t: Node, text: string)
    requires t.checklist.Some?
    ensures ApplyEdit(ApplyEdit(t, Add(text)), Remove(|t.checklist.value|)) == t
  {
    var cl := t.checklist.value;
    assert ItemRemoved(cl + [ChecklistItem(text, false)], |cl|) == cl;
  }
}
