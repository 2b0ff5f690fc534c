# PromAi knowledge base — a Dafny model of its core

PromAi is a browser application for keeping a personal technology map. Its
document (`window.techData`) is a forest of **categories** and
**technologies**. Each technology can carry a **checklist**, notes, media and
links. The page edits the document through managers that address a node by a
path of sibling indices. It syncs the document with a GitHub file through an
auto-save loop that merges remote changes into the local copy and never deletes
anything. It also ships developer tooling: a dependency validator for its
modules, an inspector extension (cycle check, Mermaid diagram, a JavaScript
function numberer) and two function tracers.

This project models that core in Dafny:

- `tree.dfy` (module `Tree`): the document and path resolution. `Resolve`
  follows `getNodeByPath`, including the detached fresh `[]` it yields when a
  path goes through a node without `children`. `ReplaceAt` writes a sibling
  array back. The class `TechData` holds the shared document.
- `data_manager.dfy` (`DataManager`): add, delete, rename and toggle as
  methods on `TechData`. Each method is proved against a pure function of the
  old document.
- `checklist_manager.dfy` (`ChecklistManager`) and `main.dfy`
  (`PageHandlers`): the checklist of the current technology, the modal and
  accordion variants of each edit, and progress counts.
- `accordion.dfy` (`Accordion`): the recursive progress computation, status
  labels and the two expansion-state maps.
- `knowledge.dfy` (`Knowledge`): the pre-order searches, the id assignment
  they perform on the way, the link toggle and the field initialisation of the
  knowledge base.
- `graph.dfy`, `dependency_validator.dfy` and `inspector.dfy`: the dependency
  graph, the two depth-first cycle searches (one class each), layer rules,
  orphans, the Mermaid text and graph statistics.
- `merge.dfy` (`SyncMerge`): the accretive merge as functions over values,
  with its accretion, coverage and self-merge properties.
  `auth_manager.dfy` (`AuthManager`) holds the same merge as in-place loops,
  proved equal to those functions. It also holds the auto-save state machine:
  the enabled flag, the armed timers, the 30 s write floor, the 10 s
  debounce, sha-change detection, the PUT request and its outcome, and
  conflict handling.
- `trace_buffer.dfy`, `function_tracer.dfy` and `standalone_tracer.dfy`: the
  two bounded FIFO trace buffers, their counters, filters, the stable sort
  behind `getSlowest`, and their statistics.
- `js_analyzer.dfy` (`JsAnalyzer`): FUNC_ID numbering over a list of pattern
  matches and the comment insertion, with proofs that the original code
  survives and that each comment lands right before its function.
- `dom_logger.dfy` (`DomLogger`): the keyed registry of created elements.
- `util.dfy` (`Util`): `Option`, `trim`, decimal formatting, `padStart`,
  `join`, and the index arithmetic of `slice` and `splice`.

Some behaviours are modelled exactly as written, and lemmas expose them:

- Adding a node under a path that goes through a technology pushes into a
  throw-away array, so the document does not change
  (`DataManager.AppendUnderLeafIsLost`).
- `getTrace(0)` returns the whole trace, because `slice(-0)` is `slice(0)`.
- A self-merge is a no-op only when category names are distinct: `find`
  always picks the first category of a name
  (`SyncMerge.SelfMergeNeedsDistinctNames`).
- `disableAutoSave` hands `removeEventListener` a freshly bound function, so
  the `beforeunload` listener is never removed.
- The children loop of the merge does not recurse into a sub-category that
  both copies have, so whatever is new below it is dropped
  (`SyncMerge.NestedItemsLost`; see "## Findings").

## Model

| member | source | states |
|---|---|---|
| Util.TrimSpec | src/modules/DataManager.js:33 | `trim()` keeps a contiguous middle part of the input, drops only whitespace around it, and leaves no whitespace at either end |
| Util.TrimBlank | src/modules/DataManager.js:33-34 | an all-whitespace input trims to the empty, falsy string |
| Util.NatToStringInjective | src2/js-analyzer.js:24 | distinct counters have distinct decimal forms |
| Util.JoinNatsSeparator | src/modules/AccordionManager.js:49 | a `join('-')` key holds a '-' exactly when the path has two or more indices |
| Util.SliceLast | src/modules/FunctionTracer.js:53 | `slice(-n)` is the last n elements for n > 0, the whole array for n = 0, and drops the first -n elements for n < 0 |
| Util.SpliceOne | src/modules/DataManager.js:102 | `splice(index, 1)` at an index inside the array removes exactly that element: one fewer element, the same multiset less the removed one, earlier elements in place and later ones shifted down by one; past the end nothing changes |
| Util.PadStart | src2/js-analyzer.js:24 | `padStart(3, '0')`: at least three characters, the input at the end, zeros before it |
| Tree.TechData.constructor | src/modules/DataManager.js:9 | the document starts with an empty `categories` array |
| Tree.DetachedIsEmpty | src/modules/DataManager.js:12 | an array reached through a node without `children` is the fresh empty `[]`, never part of the document |
| Tree.WalkDetachedIsEmpty | src/modules/DataManager.js:10-15 | once the walk has stepped through a childless node, every later array it yields is empty |
| Tree.ResolveEmptyPath | src/modules/DataManager.js:9-15 | the empty path resolves to the root `categories` array itself |
| Tree.ResolveOutOfRange | src/modules/DataManager.js:10-13 | resolution returns null as soon as an index has no element at its level |
| Tree.WalkOutOfRange | src/modules/DataManager.js:10-13 | the same for the walk from any array |
| Tree.ResolveThroughLeaf | src/modules/DataManager.js:12 | stepping through a node without `children` yields the detached empty array |
| Tree.ResolveThroughParent | src/modules/DataManager.js:12 | stepping through a node with `children` yields that very array, attached iff the parent array is |
| Tree.WalkAppend | src/modules/DataManager.js:10-14 | extending a path by one index is one more loop step from the array the shorter path reached |
| Tree.WalkStaysDetached | src/modules/DataManager.js:12 | a walk that has left the document never re-enters it |
| Tree.AttachedStep | src/modules/DataManager.js:11-12 | an attached path starts with an in-range index of a node that has `children` |
| Tree.ResolveReplaceAt | src/modules/DataManager.js:8-16 | after an in-place write to the array a path reaches, the same path reaches the new array |
| Tree.ReplaceAtFrame | src/modules/DataManager.js:8-16 | every array reached along a path that diverges from the written one is unchanged |
| Tree.ReplaceAtAncestors | src/modules/DataManager.js:8-16 | along the written path only the `children` of the node stepped through change; its other fields and siblings stay |
| Tree.ReplaceAtSame | src/modules/DataManager.js:8-16 | writing back the array that is already there leaves the document unchanged |
| Tree.ReplaceAtTwice | src/modules/DataManager.js:8-16 | a second write to the same array supersedes the first |
| Tree.NodeAtAttached | src/modules/DataManager.js:255-258 | a node getNodeAtIndex finds lies in an array attached to the document, at an in-range index |
| Tree.SetNodeAtSpec | src/modules/DataManager.js:255-258 | replacing the found node in place: it reads back, its siblings are kept, and every array on a diverging path is unchanged |
| Tree.SetNodeAtAlgebra | src/modules/DataManager.js:255-258 | writing the node back unchanged is the identity, and of two writes the second wins |
| DataManager.GetNodeByPath | src/modules/DataManager.js:8-16 | the loop's result is the reference resolution of the path; a detached result is the empty array |
| DataManager.GetNodeAtIndex | src/modules/DataManager.js:255-258 | element `index` of the resolved array when it exists (and then the array is attached), otherwise null |
| DataManager.ToggleTech | src/modules/DataManager.js:85-95 | the new document is the toggled one (see TechToggledSpec) |
| DataManager.DeleteNode | src/modules/DataManager.js:98-110 | nothing changes unless confirmed; then the splice at (path, index) is applied |
| DataManager.DeleteTechnology | src/modules/DataManager.js:238-252 | the same splice behind its own confirmation |
| DataManager.AddCategory | src/modules/DataManager.js:32-50 | a blank trimmed name changes nothing; otherwise one category with the trimmed name and empty `children` is appended at the end of `categories` |
| DataManager.PushAt | src/modules/DataManager.js:126-131 | the node is pushed onto the array the path resolves to |
| DataManager.AddNode | src/modules/DataManager.js:113-142 | a blank name or no selection changes nothing; otherwise a category with empty `children` and the trimmed name is pushed at the selected path |
| DataManager.AddTechnology | src/modules/DataManager.js:53-82 | a blank name or no selection changes nothing; otherwise a technology with `completed: false` and the trimmed name is pushed at the selected path |
| DataManager.EditNode | src/modules/DataManager.js:202-217 | the new document is the renamed one (see NodeRenamedSpec) |
| DataManager.EditTechnology | src/modules/DataManager.js:220-235 | the same rename |
| DataManager.TechToggledSpec | src/modules/DataManager.js:85-95 | when (path, index) names a node, exactly its `completed` flips and every other array is unchanged; otherwise nothing changes |
| DataManager.TechToggledTwice | src/modules/DataManager.js:85-95 | toggling the same node twice restores the document |
| DataManager.NodeDeletedSpec | src/modules/DataManager.js:98-110 | with an in-range index exactly that element is removed, later siblings shift down, and arrays on diverging paths are unchanged; splice with a negative or out-of-range index behaves as in JavaScript |
| DataManager.NodeAppendedSpec | src/modules/DataManager.js:126-131 | a push lands at the end of an attached array and nowhere else; a push into a detached or missing array leaves the document unchanged |
| DataManager.AppendUnderLeafIsLost | src/modules/DataManager.js:12-67 | a new node whose selected parent is a childless technology is pushed into the fresh `[]` and lost |
| DataManager.NodeRenamedSpec | src/modules/DataManager.js:202-235 | the name becomes the trimmed answer only when it is non-blank; the sibling array on the path is the old one with just that node renamed, and every array off the path resolves as before |
| ChecklistManager.ItemToggled | src/modules/ChecklistManager.js:39 | only item i's `completed` flips; its text and every other item are kept |
| ChecklistManager.ItemRemoved | src/modules/ChecklistManager.js:105 | exactly item i is removed: earlier items keep their index, later ones shift down by one, and the multiset loses only that item |
| ChecklistManager.ItemRetexted | src/modules/ChecklistManager.js:138 | only item i's text is replaced; its `completed` flag and every other item are kept |
| ChecklistManager.CountCompleted | src/modules/ChecklistManager.js:251 | the completed count is at most the total; it equals the total iff every item is completed and is 0 iff none is |
| ChecklistManager.CountCompletedIsCount | src/modules/ChecklistManager.js:251 | `filter(item => item.completed).length` is the number of positions holding a completed item |
| ChecklistManager.RoundedPercent | src/modules/ChecklistManager.js:253 | 0 for an empty checklist, else the nearest integer to 100·completed/total with halves rounded up; always within 0..100, 0 when nothing is done and 100 when all is |
| ChecklistManager.RoundingFacts | src/modules/ChecklistManager.js:253 | the rounded percentage is within 0..100, is the nearest integer to 100·completed/total with halves rounded up, and is 0 with nothing done and 100 with everything done |
| ChecklistManager.ChecklistProgress | src/modules/ChecklistManager.js:251-253 | completed is the number of completed items and total the checklist length, zeros without a checklist; the percentage is 100·completed/total rounded to the nearest integer (0 for an empty checklist), so at most 100, 0 when nothing is done and 100 when everything is |
| ChecklistManager.ChecklistManager.constructor | src/modules/ChecklistManager.js:8-11 | `currentChecklist` starts as the empty path and techIndex -1 |
| ChecklistManager.ChecklistManager.GetTechnology | src/modules/ChecklistManager.js:273-276 | `parent[techIndex]` of the current path, or null when the path does not resolve or the index has no element |
| ChecklistManager.ChecklistManager.ApplyAtCurrent | src/modules/ChecklistManager.js:273-276 | the edit is written into the technology at the current location, if any |
| ChecklistManager.ChecklistManager.ManageChecklist | src/modules/ChecklistManager.js:14-29 | the location is stored, then a missing checklist of the technology is initialised to empty |
| ChecklistManager.ChecklistManager.ToggleItem | src/modules/ChecklistManager.js:32-45 | the location is stored, then the toggle is applied under the length guard |
| ChecklistManager.ChecklistManager.AddItem | src/modules/ChecklistManager.js:48-73 | blank trimmed text changes nothing; otherwise the trimmed item is added at the current location |
| ChecklistManager.ChecklistManager.AddItemInAccordion | src/modules/ChecklistManager.js:76-97 | the location is stored; a cancelled or blank answer changes nothing; otherwise the trimmed item is added |
| ChecklistManager.ChecklistManager.RemoveItem | src/modules/ChecklistManager.js:100-111 | the item at the index is removed under the length guard |
| ChecklistManager.ChecklistManager.RemoveItemInAccordion | src/modules/ChecklistManager.js:114-128 | the location is stored; nothing changes unless confirmed; then the removal is applied |
| ChecklistManager.ChecklistManager.EditItem | src/modules/ChecklistManager.js:131-145 | a cancelled prompt changes nothing; otherwise the text becomes the trimmed answer, which may be blank |
| ChecklistManager.ChecklistManager.EditItemInAccordion | src/modules/ChecklistManager.js:148-163 | the location is stored, then the same edit as editChecklistItem |
| ChecklistManager.ApplyEditKeepsNode | src/modules/ChecklistManager.js:38-39 | every checklist edit changes only the technology's `checklist`; its other fields are kept |
| ChecklistManager.EditTechSpec | src/modules/ChecklistManager.js:273-276 | an edit at an existing technology reads back there; its siblings and every array off the path are unchanged; with no technology the document is unchanged |
| ChecklistManager.EditTechNoOp | src/modules/ChecklistManager.js:38 | a toggle, removal or edit whose guard fails (no checklist or index ≥ length) changes nothing |
| ChecklistManager.AddAppendsOne | src/modules/ChecklistManager.js:58-65 | adding creates a missing checklist and appends exactly one `{text, completed: false}`, keeping the existing items |
| ChecklistManager.InitSpec | src/modules/ChecklistManager.js:23-25 | a missing checklist becomes empty, an existing one is left alone, and initialising twice is the same as once |
| ChecklistManager.ToggleTwice | src/modules/ChecklistManager.js:38-39 | toggling the same item twice restores the document |
| ChecklistManager.AddThenRemoveLast | src/modules/ChecklistManager.js:62-105 | adding an item and then removing the last one restores the technology |
| PageHandlers.ToggleChecklistItem | src/main.js:6-21 | the handler applies the guarded toggle to the technology at (path, techIndex) |
| PageHandlers.ToggleChecklistItemSpec | src/main.js:7-13 | no-op when the path does not resolve, the technology is missing, has no checklist or itemIndex ≥ length; otherwise exactly that item's `completed` flips and every other item, field, sibling and array off the path is unchanged |
| Accordion.ProgressOf | src/modules/AccordionManager.js:450-482 | every node's progress lies in 0..100 |
| Accordion.ChildrenSum | src/modules/AccordionManager.js:466-477 | after k children the accumulated progress lies in 0..100·k |
| Accordion.Share | src/modules/AccordionManager.js:453-455 | `(completed / total) * 100` lies in 0..100, is 100 iff every item is completed and 0 iff none is |
| Accordion.Mean | src/modules/AccordionManager.js:479 | the mean of k values in 0..100 lies in 0..100, is 100 iff the total is 100·k and 0 iff the total is 0 |
| Accordion.CalculateNodeProgress | src/modules/AccordionManager.js:450-482 | the recursive computation with its forEach accumulators returns the reference progress of the node |
| Accordion.ChildrenSumSpec | src/modules/AccordionManager.js:466-477 | the flag accumulated over k children is set iff some child has checklist items; the sum is 100·k iff every child reports 100, and 0 iff every child reports 0 |
| Accordion.TechnologyProgressFull | src/modules/AccordionManager.js:451-459 | a technology reports 100 iff every checklist item is completed when it has items, else iff its own `completed` flag is set |
| Accordion.CategoryProgressSpec | src/modules/AccordionManager.js:461-480 | a category reports 100 iff it has children and all report 100, 0 iff it has none or all report 0, and has checklist items iff some child has |
| Accordion.StatusMatchesProgress | src/modules/AccordionManager.js:69-96 | the status classification (a checklist-less technology by its flag, everything else by 0 / 100 / in between) always agrees with classifying the progress value alone |
| Accordion.ChecklistKeyInjective | src/modules/AccordionManager.js:344 | two inline checklists under the same parent path have the same key iff they have the same index; at the top level the key is "-" followed by the index |
| Accordion.WithDefaultsAppend | src/modules/AccordionManager.js:51-53 | defaulting over two runs of paths is defaulting over the first and then the second |
| Accordion.WithDefaultsSpec | src/modules/AccordionManager.js:49-53 | defaulting keeps every stored value, stores a value for every visited key (expanded iff the node is top-level), and adds no other key |
| Accordion.DefaultByKey | src/modules/AccordionManager.js:49-52 | a fresh key's default is "expanded" exactly when the joined key has no '-' |
| Accordion.AccordionState.constructor | src/modules/AccordionManager.js:6-7 | both expansion maps start empty |
| Accordion.AccordionState.ToggleItem | src/modules/AccordionManager.js:326-329 | only that key changes, to the negation of its truthiness, so an unset key becomes expanded |
| Accordion.AccordionState.ToggleChecklist | src/modules/AccordionManager.js:444-447 | only that key changes; an unset key, shown expanded, stores true and stays expanded; a set key flips |
| Accordion.AccordionState.ApplyDefaults | src/modules/AccordionManager.js:46-53 | buildAccordion's pass stores defaults for exactly the paths it visits, in visit order |
| Accordion.AccordionState.DefaultNode | src/modules/AccordionManager.js:48-53 | one node of the pass: its own key, when unseen, defaults to expanded exactly at the top level, and then the keys of its children follow in visit order |
| Knowledge.PreOrderPrefix | src/modules/KnowledgeManager.js:97-107 | the visit of the first k siblings is a prefix of the visit of all of them |
| Knowledge.PreOrderLocates | src/modules/KnowledgeManager.js:97-110 | every visited (path, index) pair, fed to getNodeByPath and the index, reaches the visited node |
| Knowledge.PreOrderPrefixLocates | src/modules/KnowledgeManager.js:97-110 | the same for the visit of a prefix of an attached sibling array |
| Knowledge.PreOrderVisits | src/modules/KnowledgeManager.js:97-110 | each sibling is visited with its path and index, and so is every entry of its subtree |
| Knowledge.PreOrderReaches | src/modules/KnowledgeManager.js:97-110 | every node of an attached array below the start is visited with the path and index that locate it |
| Knowledge.PreOrderComplete | src/modules/KnowledgeManager.js:97-110 | conversely to PreOrderLocates, every node getNodeByPath(path)[index] reaches is visited from the root with that path and index |
| Knowledge.First | src/modules/KnowledgeManager.js:98-108 | the first position whose entry satisfies the test: no earlier entry does; none when no entry does |
| Knowledge.FirstAppend | src/modules/KnowledgeManager.js:98-108 | the first match in a concatenation is the first match in the left part, else the right part's shifted |
| Knowledge.FirstPrefix | src/modules/KnowledgeManager.js:104-105 | a match found in a prefix of the visit is the match of the whole visit, so returning early is sound |
| Knowledge.FindPath | src/modules/KnowledgeManager.js:97-109 | the for-loop with its early returns computes the first visited node with the target id |
| Knowledge.FindPathStep | src/modules/KnowledgeManager.js:98-106 | with no earlier match, a node carrying the target id, or else a match in its subtree, is the first match of the whole search; otherwise nothing visited so far matches |
| Knowledge.FindPathToTechnology | src/modules/KnowledgeManager.js:96-111 | the search starts at the root categories with the empty path |
| Knowledge.PathToSpec | src/modules/KnowledgeManager.js:96-111 | a result `{path, index}` locates, through getNodeByPath and the index, a node carrying the target id; null iff no visited node carries it |
| Knowledge.TechIds | src/modules/KnowledgeManager.js:194-197 | giving ids keeps the number of siblings |
| Knowledge.Technologies | src/modules/KnowledgeManager.js:194-198 | only technology-typed nodes are collected, at most one per visited node |
| Knowledge.TechnologiesAppend | src/modules/KnowledgeManager.js:193-203 | collecting over a concatenated visit concatenates the collections |
| Knowledge.SameShapeAppend | src/modules/KnowledgeManager.js:193-203 | visits that agree position by position concatenate to visits that agree |
| Knowledge.TechIdsSpec | src/modules/KnowledgeManager.js:192-205 | after the traversal the document is visited in the same shape; every technology has a truthy id and every truthy id is kept |
| Knowledge.TechIdsOnlyIds | src/modules/KnowledgeManager.js:190-207 | the traversal of getAllTechnologies changes nothing in the document but ids |
| Knowledge.Traverse | src/modules/KnowledgeManager.js:192-204 | the forEach recursion leaves the siblings with ids given and pushes exactly the technologies of the updated visit, in order |
| Knowledge.GetAllTechnologies | src/modules/KnowledgeManager.js:190-207 | the document gains ids and the result is every technology-typed node, in pre-order, descending into `children` of any node |
| Knowledge.AllTechnologiesSpec | src/modules/KnowledgeManager.js:190-207 | the result lines up with the technologies of the original document: same count, same names, each with a truthy id, existing ids kept |
| Knowledge.TechnologiesAligned | src/modules/KnowledgeManager.js:194-198 | the technologies of two same-shaped visits line up name by name |
| Knowledge.FirstNamed | src/modules/KnowledgeManager.js:212 | `find` returns the first technology with exactly that name; none when no name is equal |
| Knowledge.FindTechnologyByName | src/modules/KnowledgeManager.js:210-213 | the first technology in visiting order whose name is exactly equal, after getAllTechnologies has given ids |
| Knowledge.WithId | src/modules/KnowledgeManager.js:219-221 | a node with a falsy id gets a truthy one; a truthy id and the children are kept |
| Knowledge.FindIn | src/modules/KnowledgeManager.js:217-231 | the search keeps the number of siblings |
| Knowledge.FindInStops | src/modules/KnowledgeManager.js:222-228 | once a match is found in the first k siblings, the later siblings are neither searched nor given ids |
| Knowledge.SearchOutcomeAppend | src/modules/KnowledgeManager.js:225-228 | a search outcome over one part of the visit, and over the next part when nothing was found, is the outcome over both |
| Knowledge.FindInSpec | src/modules/KnowledgeManager.js:216-233 | the match is the first node of any type, in the visit of the updated document, with that id; every node visited up to it has a truthy id; null means no node has the id and every node got one |
| Knowledge.FindInNodeSpec | src/modules/KnowledgeManager.js:219-228 | the same outcome for one node and its subtree |
| Knowledge.FindInNodes | src/modules/KnowledgeManager.js:217-231 | the for-of loop with early return computes the reference search result |
| Knowledge.FindTechnologyById | src/modules/KnowledgeManager.js:216-233 | the document afterwards and the node returned are those of the reference search from the root |
| Knowledge.FindInOnlyIds | src/modules/KnowledgeManager.js:219-221 | the search changes nothing but ids |
| Knowledge.FindInNodeOnlyIds | src/modules/KnowledgeManager.js:219-221 | the same for one node |
| Knowledge.WalkSameButIds | src/modules/DataManager.js:8-16 | documents differing only in ids resolve the same paths to arrays that differ only in ids |
| Knowledge.NodeAtSameButIds | src/modules/DataManager.js:255-258 | a node located in one is located in the other with the same links |
| Knowledge.LinkIndex | src/modules/KnowledgeManager.js:241 | `findIndex`: the first link with that id, no earlier one; none when no link has it |
| Knowledge.LinksToggledSpec | src/modules/KnowledgeManager.js:236-258 | a present id loses exactly its first link, the others keep their order; an absent id gains `{id, name, path: []}` at the end when the target exists, else nothing changes |
| Knowledge.LinksToggledTwice | src/modules/KnowledgeManager.js:241-254 | toggling an absent id twice leaves the links unchanged |
| Knowledge.Initialised | src/modules/KnowledgeManager.js:23-26 | only a falsy content, a missing media or links array, and a falsy id are filled in; every other field and every present value is kept |
| Knowledge.InitialisedIdempotent | src/modules/KnowledgeManager.js:23-26 | initialising a second time changes nothing |
| Knowledge.LinkToggledDocSpec | src/modules/KnowledgeManager.js:236-258 | the current item's links become the toggled links (the target searched after `links` was initialised); apart from ids given by the search, the item is otherwise unchanged |
| Knowledge.SameNodeButIdsLinks | src/modules/KnowledgeManager.js:244-252 | setting the same links on two nodes that differ only in ids keeps them so |
| Knowledge.KnowledgeManager.constructor | src/modules/KnowledgeManager.js:8 | there is no current item |
| Knowledge.KnowledgeManager.OpenKnowledgeBase | src/modules/KnowledgeManager.js:11-35 | a missing item changes nothing; otherwise it becomes the current item, its missing fields are initialised in place, and the renderLinks call then gives every id-less technology of the document an id |
| Knowledge.KnowledgeManager.ToggleLink | src/modules/KnowledgeManager.js:236-258 | the document becomes the one with the current item's links toggled, after which the renderLinks call gives every id-less technology an id |
| Knowledge.KnowledgeManager.ToggleCurrentLinks | src/modules/KnowledgeManager.js:236-255 | the edit before rendering: the document becomes the one with the current item's links toggled |
| Knowledge.KnowledgeManager.RenderLinks | src/modules/KnowledgeManager.js:155-159 | the getAllTechnologies call of renderLinks gives ids to the shared document as the traversal does |
| Knowledge.ToggleLinkRendered | src/modules/KnowledgeManager.js:236-257 | after the toggle and the rendering, the document differs from the toggled one only in ids, and the current item still sits at its location with exactly the toggled links |
| Knowledge.HitsAppend | src/modules/KnowledgeManager.js:377-400 | the results over a concatenated visit concatenate |
| Knowledge.HitsSpec | src/modules/KnowledgeManager.js:377-395 | a result exists exactly for each visited node matching by name and, separately, for each one matching by content, each with its parent path and index |
| Knowledge.SearchInNodes | src/modules/KnowledgeManager.js:376-401 | the forEach pushes, in pre-order, each node's name result and then its content result, then descends |
| Knowledge.SearchInKnowledgeBase | src/modules/KnowledgeManager.js:373-405 | the results of the search from the root categories, in pre-order |
| DependencyGraph.BuildGraph | src/modules/DependencyValidator.js:102-112 | the forEach loop builds exactly the reference adjacency object of the edge list |
| DependencyGraph.GraphOfSpec | src/modules/DependencyValidator.js:106-109 | the keys are the edge sources, each once, in first-occurrence order; each list holds that module's targets in edge order |
| DependencyGraph.TargetsAbsent | src/modules/DependencyValidator.js:43 | a module with no outgoing edge has no targets |
| DependencyGraph.TargetsOfSpec | src/modules/DependencyValidator.js:106-109 | the targets listed under a module are exactly the `to` ends of the edges from it |
| DependencyGraph.GraphOfEdges | src/modules/DependencyValidator.js:102-112 | an adjacency of the built graph is exactly an edge of the list |
| DependencyValidator.IndexOf | src/modules/DependencyValidator.js:33 | `path.indexOf(x)`: the first position holding x, or -1 exactly when x is absent |
| DependencyValidator.CycleFromPath | src/modules/DependencyValidator.js:32-35 | the slice of the stack from the repeated module, closed with that module, is a closed walk along edges |
| DependencyValidator.ExpandOnce | src/modules/DependencyValidator.js:37-39 | expanding a module not yet visited keeps the log of expanded modules free of repeats |
| DependencyValidator.CycleFinder.constructor | src/modules/DependencyValidator.js:27-29 | `visited`, `recStack` and `cycles` start empty |
| DependencyValidator.CycleFinder.RecordCycle | src/modules/DependencyValidator.js:32-35 | a module met again while on the recursion stack occurs in the path; exactly one cycle is appended, the path from the module's first occurrence closed by the module, and it is a closed walk; visited modules, the stack and the expansion order are unchanged |
| DependencyValidator.CycleFinder.Dfs | src/modules/DependencyValidator.js:31-47 | every recorded cycle is a closed walk, a module is expanded at most once, `recStack` is restored on return, and the node ends up visited |
| DependencyValidator.FindCycles | src/modules/DependencyValidator.js:25-54 | every reported cycle is a closed walk of the graph; none is reported for an acyclic graph; every key is expanded, and none twice |
| DependencyValidator.ModuleLayer | src/modules/DependencyValidator.js:115-120 | the id of the first layer listing the module, in entry order; none iff no layer lists it |
| DependencyValidator.GetModuleLayer | src/modules/DependencyValidator.js:115-120 | the for-of loop returning at the first layer listing the module computes that layer |
| DependencyValidator.CheckLayerViolations | src/modules/DependencyValidator.js:57-81 | the forEach loop reports the reference violations, in edge order |
| DependencyValidator.ViolationsSpec | src/modules/DependencyValidator.js:62-78 | an edge is reported iff both ends have a (non-empty) layer, the layers differ, and the target layer is not in the source layer's `canDependOn` |
| DependencyValidator.FindOrphanModules | src/modules/DependencyValidator.js:84-99 | the forEach loop reports the reference orphans, in registry order |
| DependencyValidator.OrphansSpec | src/modules/DependencyValidator.js:89-96 | a registered module is an orphan iff no edge starts or ends at it and it is not `MODULE_Inspector_VER_1.0` |
| DependencyValidator.Validate | src/modules/DependencyValidator.js:10-22 | valid iff there are no cycles and no layer violations; orphans do not affect validity; for an acyclic graph valid iff no violations |
| Inspector.CycleChecker.constructor | src2/inspector.js:354-356 | `visited`, `stack` and `cycles` start empty |
| Inspector.CycleChecker.Dfs | src2/inspector.js:358-377 | every recorded cycle is a closed walk, a module is expanded at most once, the stack is restored on return, and the node ends up visited |
| Inspector.CycleChecker.RecordCycle | src2/inspector.js:359-365 | a module met again while on the stack occurs in the path, so the `cycleStart !== -1` guard always passes; exactly one cycle is appended, the path from the module's first occurrence closed by the module, and it is a closed walk; visited modules, the stack and the expansion order are unchanged |
| Inspector.CheckCycles | src2/inspector.js:345-382 | [] when there is no graph or no edges; otherwise every cycle is a closed walk along the edges, none is reported for an acyclic graph, and no module is expanded twice |
| Inspector.Sanitize | src2/inspector.js:510-516 | the sanitised id has the original's length; each letter or digit is kept and every other character becomes '_' |
| Inspector.SanitizeSpec | src2/inspector.js:510-516 | a sanitised id holds only letters, digits and '_', and sanitising again changes nothing |
| Inspector.AppendEdgeLines | src2/inspector.js:509-513 | the forEach appends exactly the edge lines, in order |
| Inspector.AppendNodeLines | src2/inspector.js:515-518 | the forEach appends exactly the node lines, in order |
| Inspector.GenerateMermaidDiagram | src2/inspector.js:505-522 | the text is "graph TD\n" followed by the lines of the edges when there are any, else of the nodes when present, else nothing |
| Inspector.MermaidSpec | src2/inspector.js:506-519 | the text starts with "graph TD\n"; one line per edge if edges exist, else one per node; each line is indented by four spaces and ends with a newline |
| Inspector.GraphStatsMatchDiagram | src2/inspector.js:337-343 | the edge count reported for a graph is the number of lines its Mermaid diagram draws, or the node count when there are no edges; a missing graph reports zero nodes and zero edges |
| AuthManager.AuthManager.constructor | src/modules/AuthManager.js:6-11 | auto-save starts disabled, with no interval, timeout, save time, known sha or sync time, no armed timer and no listener |
| AuthManager.AuthManager.EnableAutoSave | src/modules/AuthManager.js:101-114 | idempotent; otherwise enables auto-save, arms exactly one 2-minute interval and adds one beforeunload listener |
| AuthManager.AuthManager.DisableAutoSave | src/modules/AuthManager.js:117-126 | clears the interval and disables auto-save; the listener count, the pending timeout and every other field are kept |
| AuthManager.AuthManager.ToggleAutoSave | src/modules/AuthManager.js:129-135 | flips whether auto-save is enabled |
| AuthManager.AuthManager.ScheduleAutoSave | src/modules/AuthManager.js:391-401 | a no-op while disabled; otherwise the pending timeout is cancelled and exactly one fresh 10 s timeout is armed, nothing else changing |
| AuthManager.AuthManager.MergeChecklists | src/modules/AuthManager.js:289-310 | the forEach loop computes the reference checklist merge |
| AuthManager.AuthManager.MergeTechnologies | src/modules/AuthManager.js:271-286 | the forEach loop computes the reference child merge, including the throw on a matched category without `children` |
| AuthManager.AuthManager.MergeData | src/modules/AuthManager.js:248-268 | the forEach loop leaves the document as the reference category merge |
| AuthManager.AuthManager.ReadRemote | src/modules/AuthManager.js:166-213 | the read phase updates the document and the known sha as PrepareWrite says and returns its request, if any; nothing else changes |
| AuthManager.AuthManager.AutoSaveToGitHub | src/modules/AuthManager.js:152-245 | no write without credentials, while disabled, or within 30000 ms of the last save; otherwise the document and known sha are those the read phase (PrepareWrite) yields; status 200/201 sets lastSaveTime and lastSyncTime to the save time; any other outcome except a 409 keeps both; the timers and listeners change only through a 409's conflict handling; on a 409 a declined conflict disables auto-save, and an accepted one with a readable reload leaves the merge of the read-phase document with the reloaded file, taking the reload's sha when that merge completes |
| AuthManager.AuthManager.HandleSyncConflict | src/modules/AuthManager.js:313-320 | a declined conflict disables auto-save and changes nothing else; an accepted one with an unreadable reload leaves the document as it was; a readable one leaves the merge of the old document with the reloaded file, and on completion the reload's sha, the sync time and auto-save on; lastSaveTime is kept |
| AuthManager.AuthManager.LoadFromGitHubWithMerge | src/modules/AuthManager.js:323-365 | only a readable 200 response with credentials merges; a completed merge records the sha and sync time and enables auto-save |
| AuthManager.PrepareWriteMergesOnlyOnShaChange | src/modules/AuthManager.js:181-193 | the document only grows, and changes only on a 200 response whose sha differs from a previously observed one |
| AuthManager.PrepareWriteRequest | src/modules/AuthManager.js:193-213 | the request carries the merged document and carries a sha iff the file existed (200 with a truthy sha), which is also the sha recorded; other statuses keep the recorded sha |
| AuthManager.PrepareWriteAborts | src/modules/AuthManager.js:172-200 | the write is skipped iff the fetch failed, or a needed merge met an undecodable file or threw |
| AuthManager.PrepareWriteIdenticalRemote | src/modules/AuthManager.js:185-310 | when the remote copy equals a well-keyed local document, a moved sha merges nothing |
| SyncMerge.IndexOfName | src/modules/AuthManager.js:254 | `find` by name: the first category with that name, no earlier one; none iff no category has it |
| SyncMerge.IndexOfKey | src/modules/AuthManager.js:275-292 | the first node with that name and type; none iff no node has both |
| SyncMerge.ListGrowsTrans | src/modules/AuthManager.js:274-285 | growth of a child list composes over successive loop iterations |
| SyncMerge.DocGrowsTrans | src/modules/AuthManager.js:253-262 | growth of the document composes over successive loop iterations |
| SyncMerge.MergeChecklistItemsSpec | src/modules/AuthManager.js:300-309 | every local item keeps its place and flag; afterwards every remote text is present; the appended items are remote items whose text was absent, with distinct texts |
| SyncMerge.MergeChecklistItemsCovered | src/modules/AuthManager.js:300-309 | merging a list whose texts are all present already appends nothing |
| SyncMerge.MergeChecklistItemsSelf | src/modules/AuthManager.js:300-309 | merging a checklist with itself changes nothing |
| SyncMerge.MergeChecklistsSpec | src/modules/AuthManager.js:289-310 | a no-op when no local technology has the name or the remote has no checklist; otherwise only the first technology of that name changes, its checklist extended at its end with remote items whose texts were absent, so that every remote text is then present; every other child is unchanged |
| SyncMerge.ChildStepSpec | src/modules/AuthManager.js:274-285 | a child with a new (name, type) is appended; a known one keeps the list's length and only grows checklists; names and types of existing children are kept; afterwards the child's key is present and a technology's checklist texts are in the first technology of that name |
| SyncMerge.MergeChildrenGrows | src/modules/AuthManager.js:274-285 | every local child keeps its position, growing at most its checklist |
| SyncMerge.MergeChildrenCovers | src/modules/AuthManager.js:274-285 | afterwards every remote (name, type) key is present |
| SyncMerge.ChildStepCovers | src/modules/AuthManager.js:276-284 | after one step the child's (name, type) key is present and, for a technology, its checklist texts are in the first technology of that name |
| SyncMerge.MergeChildrenCoversAll | src/modules/AuthManager.js:274-285 | afterwards every remote child key is present and every remote technology's checklist texts are in the first local technology of its name |
| SyncMerge.MergeChildrenTail | src/modules/AuthManager.js:279-280 | the appended children carry remote keys absent from the local list, each key once |
| SyncMerge.MergeChildrenSpec | src/modules/AuthManager.js:272-285 | accretion in place, coverage of every remote key and of every remote technology's checklist texts, and appended children exactly for the missing keys |
| SyncMerge.MergeChildrenSelfPrefix | src/modules/AuthManager.js:274-285 | with distinct keys, merging a child list with any prefix of itself changes nothing |
| SyncMerge.MergeChildrenSelf | src/modules/AuthManager.js:274-285 | with distinct keys, merging a child list with itself changes nothing |
| SyncMerge.MergeTechnologiesSpec | src/modules/AuthManager.js:271-286 | only the children change and only by growth; no remote children is a no-op; the merge throws iff the remote has children and the matched local category has none; a merge that completes covers every remote child key and checklist text |
| SyncMerge.DocGrowsRefl | src/modules/AuthManager.js:249 | an unchanged document counts as grown |
| SyncMerge.CategoryStepSpec | src/modules/AuthManager.js:254-261 | a category with a new name is appended as is; a known name keeps the length, changes only the first category of that name (every other one is kept as it was), and on completion that category covers the remote one's child keys and checklist texts |
| SyncMerge.CategoryStepGrows | src/modules/AuthManager.js:254-261 | one step grows the document in place, keeps every category name where it was, and leaves the remote name present, appended at the end exactly when it was new |
| SyncMerge.MergeCategoriesGrows | src/modules/AuthManager.js:253-262 | every local category keeps its position and only grows |
| SyncMerge.MergeCategoriesCovers | src/modules/AuthManager.js:253-262 | a merge that completes leaves every remote category name present |
| SyncMerge.MergeCategoriesTail | src/modules/AuthManager.js:256-257 | the appended categories carry remote names absent locally, each name once |
| SyncMerge.MergeCategoriesStopsOnThrow | src/modules/AuthManager.js:253-262 | once a category's merge throws, the remaining remote categories are not processed |
| SyncMerge.MergeCategoriesSpec | src/modules/AuthManager.js:248-262 | accretion in place, name coverage on completion, full coverage of child keys and checklist texts when the remote categories list each child key once, and appended categories exactly for the missing names |
| SyncMerge.MergeDataMissing | src/modules/AuthManager.js:249 | a missing remote document or one without `categories` changes nothing |
| SyncMerge.MergeSelfPrefix | src/modules/AuthManager.js:248-310 | for a well-keyed document, merging any prefix of an identical copy changes nothing |
| SyncMerge.MergeSelf | src/modules/AuthManager.js:248-310 | for a well-keyed document, merging an identical copy appends nothing and changes nothing |
| SyncMerge.SelfMergeNeedsDistinctNames | src/modules/AuthManager.js:254-260 | with two local categories of the same name, merging an identical copy does change the first, because `find` always picks the first |
| SyncMerge.MergeDataCovers | src/modules/AuthManager.js:248-262 | a merge that completes leaves every remote category name present, every remote direct child key under it, and every remote checklist text in the matching technology, when the remote categories list each child key once |
| SyncMerge.MergeDataIdempotent | src/modules/AuthManager.js:248-310 | merging the same remote copy a second time changes nothing, when the first merge completed and the remote categories list each child key once |
| SyncMerge.RemergeNeedsUniqueKeys | src/modules/AuthManager.js:256-257 | a new remote category with a repeated technology is pushed whole, and a second merge then folds the repeat's checklist into the first: idempotence needs distinct child keys |
| SyncMerge.NoDeletionPropagation | src/modules/AuthManager.js:248-310 | a remote copy from which categories, children or checklist items were deleted, in any positions, merges into a well-keyed document as a no-op |
| SyncMerge.NestedItemsLost | src/modules/AuthManager.js:279-284 | a technology added remotely under a sub-category that both copies have is dropped, although the merge completes |
| SyncMerge.NestedItemsNotCovered | src/modules/AuthManager.js:279-284 | the children loop as written leaves that technology uncovered, while the recursive loop covers it |
| SyncMerge.DeepMergeChildrenGrows | src/modules/AuthManager.js:274-285 | the recursive children merge keeps every local node in place at every depth, only extending checklists at their end and child lists |
| SyncMerge.DeepMergeChildrenCovers | src/modules/AuthManager.js:274-285 | with the recursive step, every remote node at every depth has its (name, type) key present along its path and every remote checklist text is present |
| TraceBuffer.Pushed | src/modules/FunctionTracer.js:39-42 | push then shift when over the limit: the new entry is last, the buffer never exceeds its limit, and the oldest entry goes first |
| TraceBuffer.PushedFull | src2/function-tracer.js:21-29 | on a full buffer a push drops exactly the oldest entry and keeps the length |
| TraceBuffer.Filter | src/modules/FunctionTracer.js:57-64 | `Array.filter` never lengthens its input |
| TraceBuffer.FilterCounts | src/modules/FunctionTracer.js:57-64 | a filtered trace holds each matching entry exactly as often as the trace does, and no other entry |
| TraceBuffer.FilterAppend | src/modules/FunctionTracer.js:57-64 | filtering distributes over concatenation, so it keeps the trace's order |
| TraceBuffer.Insert | src/modules/FunctionTracer.js:86 | inserting into a descending list yields a descending permutation of the list plus the element |
| TraceBuffer.SortDesc | src/modules/FunctionTracer.js:86 | the sort `(a, b) => b.duration - a.duration` yields a descending permutation of the trace |
| TraceBuffer.InsertStable | src/modules/FunctionTracer.js:86 | insertion keeps the relative order of equal keys |
| TraceBuffer.SortStable | src/modules/FunctionTracer.js:86 | the sort is stable: entries of equal duration keep their trace order |
| TraceBuffer.Slowest | src/modules/FunctionTracer.js:84-88 | `sort(...).slice(0, limit)`: descending, a sub-multiset of the trace, of length `min(limit, n)` (for a negative limit, n + limit clamped at 0) |
| TraceBuffer.SlowestAreSlowest | src/modules/FunctionTracer.js:84-88 | nothing left out of the result is slower than anything in it |
| TraceBuffer.SumBounds | src2/function-tracer.js:45 | a sum of n durations within [lo, hi] lies within [n·lo, n·hi] |
| TraceBuffer.Average | src2/function-tracer.js:43-48 | 0 for an empty trace; otherwise average × n equals the sum of the durations |
| TraceBuffer.AverageBounds | src/modules/FunctionTracer.js:94-96 | the average of durations within [lo, hi] lies within [lo, hi] |
| FunctionTracer.Round2 | src/modules/FunctionTracer.js:35 | `Math.round(d * 100) / 100` moves a duration by at most 0.005 and keeps it non-negative |
| FunctionTracer.ElapsedOf | src/modules/FunctionTracer.js:29-35 | a missing or zero start time gives duration 0 |
| FunctionTracer.ArgsText | src/modules/FunctionTracer.js:36 | no arguments give "[]"; otherwise a prefix of the JSON text of at most 100 characters, exactly 100 when the text is that long |
| FunctionTracer.Bump | src/modules/FunctionTracer.js:44-46 | `(c[k] \|\| 0) + 1`: the key is added or incremented by one, every other counter unchanged |
| FunctionTracer.Tracer.constructor | src/modules/FunctionTracer.js:3-9 | disabled, with an empty trace and zeroed counters |
| FunctionTracer.Tracer.Enable | src/modules/FunctionTracer.js:12-17 | enabling clears the trace and the counters |
| FunctionTracer.Tracer.Disable | src/modules/FunctionTracer.js:20-23 | disabling keeps the trace and the counters |
| FunctionTracer.Tracer.Log | src/modules/FunctionTracer.js:26-49 | disabled: nothing changes and nothing is returned; enabled: the entry `TRACE_<n+1>`, with rounded duration and truncated arguments, is pushed on the bounded trace, totalCalls grows by one and both counters are bumped |
| FunctionTracer.Tracer.GetTrace | src/modules/FunctionTracer.js:52-54 | `slice(-limit)`: the last `limit` entries; the whole trace for 0; the trace without its first `-limit` entries for a negative limit |
| FunctionTracer.Tracer.FilterByModule | src/modules/FunctionTracer.js:57-59 | never longer than the trace |
| FunctionTracer.Tracer.FilterByFunction | src/modules/FunctionTracer.js:62-64 | never longer than the trace |
| FunctionTracer.FilterByModuleSpec | src/modules/FunctionTracer.js:57-59 | exactly the entries of that module, each as often as in the trace |
| FunctionTracer.FilterByFunctionSpec | src/modules/FunctionTracer.js:62-64 | exactly the entries of that function, each as often as in the trace |
| FunctionTracer.FiltersKeepOrder | src/modules/FunctionTracer.js:57-64 | both filters keep trace order: filtering older + newer entries is filtering each part |
| FunctionTracer.Tracer.Clear | src/modules/FunctionTracer.js:67-70 | clears the trace and the counters, keeps the enabled flag |
| FunctionTracer.Tracer.GetSlowest | src/modules/FunctionTracer.js:84-88 | descending by duration, drawn from the trace, `min(limit, n)` entries |
| FunctionTracer.GetSlowestSpec | src/modules/FunctionTracer.js:84-88 | no entry left out is slower than one returned; equal durations keep trace order |
| FunctionTracer.Tracer.GetStats | src/modules/FunctionTracer.js:91-99 | the counters as kept, average 0 for an empty trace, the five slowest entries |
| FunctionTracer.AverageDurationBounds | src/modules/FunctionTracer.js:94-96 | the reported average lies between the smallest and largest bound of the durations |
| StandaloneTracer.Floored | src2/function-tracer.js:23 | `Math.max(duration, 0.01)`: at least 0.01 and the duration, and one of the two |
| StandaloneTracer.Tracer.constructor | src2/function-tracer.js:2-5 | disabled with an empty trace |
| StandaloneTracer.Tracer.Enable | src2/function-tracer.js:7-11 | enabling keeps the trace |
| StandaloneTracer.Tracer.Disable | src2/function-tracer.js:13-16 | disabling keeps the trace |
| StandaloneTracer.Tracer.Log | src2/function-tracer.js:18-30 | disabled: no change; enabled: the entry with its floored duration is pushed on the 1000-entry buffer |
| StandaloneTracer.Tracer.GetTrace | src2/function-tracer.js:32-34 | `slice(-limit)` with default 20, as for the application tracer |
| StandaloneTracer.Tracer.GetSlowest | src2/function-tracer.js:36-40 | descending by duration, drawn from the trace, `min(count, n)` entries |
| StandaloneTracer.GetSlowestSpec | src2/function-tracer.js:36-40 | no entry left out is slower than one returned |
| StandaloneTracer.Tracer.GetStats | src2/function-tracer.js:42-50 | totalCalls is the trace length; average 0 for an empty trace |
| StandaloneTracer.AverageAtLeastFloor | src2/function-tracer.js:23-48 | a non-empty trace's average is at least 0.01 |
| StandaloneTracer.Tracer.Clear | src2/function-tracer.js:52-55 | empties the trace, keeps the enabled flag |
| JsAnalyzer.FuncIdSpec | src2/js-analyzer.js:24 | a funcId is "FUNC_", the name, '_' and at least three digits ending in the counter's decimal form |
| JsAnalyzer.AnalyzeJavaScript | src2/js-analyzer.js:4-33 | the loops over the patterns and their matches compute the first-match listing of all matches in pattern order |
| JsAnalyzer.ScanPattern | src2/js-analyzer.js:18-29 | the exec loop over one pattern's matches extends the first-match listing by exactly those matches, and the counter stays one past the number of listed functions |
| JsAnalyzer.ScanMatch | src2/js-analyzer.js:20-27 | one match: a named function not yet listed is appended with the funcId of the current counter, which then advances; the listing is the first-match listing extended by that match |
| JsAnalyzer.FirstAt | src2/js-analyzer.js:21 | the index of the first match of a name: all earlier matches carry other names |
| JsAnalyzer.AnalyzedIds | src2/js-analyzer.js:17-30 | each name is listed once, non-empty, with the funcId of counter k + 1 at place k; every non-empty matched name is listed |
| JsAnalyzer.AnalyzedPositions | src2/js-analyzer.js:21-25 | each entry's position is the index of its name's first match, and entries come in the order of those first matches |
| JsAnalyzer.Annotated | src2/js-analyzer.js:43-47 | inserting the comments lengthens the code by exactly the comments' total length |
| JsAnalyzer.AnnotatedSnoc | src2/js-analyzer.js:43-47 | one more iteration inserts the next comment at its position in the text built so far |
| JsAnalyzer.AddFuncIdComments | src2/js-analyzer.js:35-50 | returns the functions sorted by descending position and the code with `// <funcId>` and a newline spliced in at each position |
| JsAnalyzer.AnnotatedKeepsCode | src2/js-analyzer.js:43-47 | the original code survives in the annotated text, character by character, in order |
| JsAnalyzer.CommentsBeforeTheirPosition | src2/js-analyzer.js:41-47 | with distinct positions, every function's comment sits immediately before the character that was at its position |
| DomLogger.Logger.constructor | src/modules/DOMFactory.js:3 | an empty registry |
| DomLogger.Logger.Log | src/modules/DOMFactory.js:5-14 | an empty id changes nothing; otherwise the id's record is set, replacing any earlier one, and a new id goes last in key order |
| DomLogger.Logger.Get | src/modules/DOMFactory.js:16-18 | a record iff the id was logged, and then the last record logged for it |
| DomLogger.Logger.GetByModule | src/modules/DOMFactory.js:20-24 | never more entries than logged ids |
| DomLogger.GetByModuleSpec | src/modules/DOMFactory.js:20-24 | exactly the logged entries of that module, each tagged with its own id and record |
| DomLogger.GetByModuleKeyOrder | src/modules/DOMFactory.js:20-24 | entries come back in the registry's key order: two of the module's ids at positions x < y in key order appear in the result in that order |
| DomLogger.Logger.Clear | src/modules/DOMFactory.js:26-28 | the registry is emptied |

## Left out

- Rendering and event wiring are not modelled. This covers buildAccordion's element construction, renderChecklist/renderMedia and the elements renderLinks builds, `uiManager`, `domFactory.create`, the inspector's panels and report download, and modal handling. They are UI only. The one document change renderLinks makes, through getAllTechnologies, is modelled (`Knowledge.KnowledgeManager.RenderLinks`).
- KnowledgeEditor.js (`execCommand` editing) and EditorJSAdapter.js (a wrapper over Editor.js) are not part of this model.
- src2/content.js, src2/popup.js and the standalone tracer's `wrapEventListeners` are not part of this model. They walk the DOM, use `chrome.*` messaging and patch listeners with random durations.
- GitHub `fetch` calls, base64/`escape`/`unescape` transcoding and JSON parsing are not modelled. Each response is an input (`GetResult`, `PutResult`, with the decoded body as a `RemoteFile`), and the PUT request is an output (`PutRequest`).
- Timers are a map of armed ids with their delays, and the callbacks are not run. `Date.now()` and `performance.now()` are parameters.
- `prompt`/`confirm` answers and text-field values are parameters. `localStorage` persistence and the start-up loading of the document are not modelled.
- `'cat_' + Date.now()`, `'tech_' + random` and similar ids come from a fresh-id parameter or an oracle function. Their uniqueness is not modelled.
- Regex scanning in analyzeJavaScript is not modelled. The per-pattern lists of matches (captured name, match index) are the input. `AddFuncIdComments` requires every match index to lie within the code, as a regex match's index does.
- Case folding (`toLowerCase`) in the knowledge-base search is a function parameter. HTML-tag stripping and preview text are not modelled.
- Floating point is modelled with exact reals: progress values, durations and averages. `Math.round` is modelled in `Round2` and `RoundedPercent`. Display formatting with `toFixed` is not modelled.
- FunctionTracer `export()` (a JSON download) is not modelled. `JSON.stringify(args)` is an input string.
- `Array.prototype.sort` works in place on a copy. The model sorts a sequence value with a stable insertion sort, so aliasing of the copy is not modelled.
- JavaScript objects list integer-like keys first, in ascending order. The models of `expandedState`, the tracer counters, the dependency graph and the DOM registry keep plain insertion order (`DomLogger` keeps it as `order`).
- Strings are sequences of characters, not UTF-16 code units.
- ISO timestamps and stack traces are inputs.
- Checklist item indices are `nat`: the page passes `forEach` indices, and a negative index would make the page throw.
- `getPathToTechnology` is a stub that returns `[]`, so a link that toggleLink adds always has the path `[]`.
- JsAnalyzer.CommentsBeforeTheirPosition: proved only when all recorded positions differ. Two patterns matching at the same index would stack their comments there.
- DomLogger.Logger.GetByModule: its contract bounds only the length. `DomLogger.GetByModuleSpec` states exactly which entries come back, and `DomLogger.GetByModuleKeyOrder` their order.
- FunctionTracer.Tracer.FilterByModule and FunctionTracer.Tracer.FilterByFunction: their contracts bound only the length. `FunctionTracer.FilterByModuleSpec` and `FunctionTracer.FilterByFunctionSpec` state the contents.
- SyncMerge.MergeSelf: holds only for well-keyed documents, with distinct category names and distinct (name, type) keys among siblings. `SyncMerge.SelfMergeNeedsDistinctNames` shows why.
- Knowledge.KnowledgeManager: the page keeps `currentItem` as a reference to the opened object, and the model keeps its location, a sibling path and an index. After an edit that shifts siblings, the page still toggles links on the object it opened, while the model toggles them on whatever node now sits at that location. This aliasing is not modelled.
- SyncMerge.MergeDataCovers and SyncMerge.MergeDataIdempotent: proved only when every remote category lists each (name, type) child key once. A new remote category is pushed whole, duplicates included, and the next merge folds a repeated technology's checklist into the first (`SyncMerge.RemergeNeedsUniqueKeys`). Coverage is stated for the first local category and technology of each name, because later merges go there.
- DataManager.AddCategory, DataManager.AddNode, DataManager.AddTechnology, DataManager.ToggleTech, DataManager.DeleteNode, DataManager.DeleteTechnology, DataManager.EditNode, DataManager.EditTechnology, the ChecklistManager.ChecklistManager edits (ToggleItem, AddItem, AddItemInAccordion, RemoveItem, RemoveItemInAccordion, EditItem, EditItemInAccordion), PageHandlers.ToggleChecklistItem and Knowledge.KnowledgeManager.ToggleLink: each page function ends by calling `authManager.scheduleAutoSave()` (through `scheduleSave` in the knowledge base), which arms the 10 s auto-save timeout. The models change only the document, so that call is not modelled; `AuthManager.AuthManager.ScheduleAutoSave` states its effect on its own.
- SyncMerge.NoDeletionPropagation: compares nested sub-categories by key only, as the merge itself does.
- SyncMerge.MergeTechnologies: the sync path (`AuthManager`) keeps the two-level children loop as written. The recursive loop `SyncMerge.DeepMergeChildren` is modelled beside it with its coverage proved, and is not wired into the sync path.
- AuthManager.AuthManager.AutoSaveToGitHub: the async function is modelled as one uninterrupted step. No edit, timer or second save runs between its awaits (the GET, its `json()`, the PUT), so the document it sends is the one at the call, where the page reads `window.techData` only after the GET. There is no in-flight guard in the page and `lastSaveTime` is set only after the PUT, so two overlapping saves can send the same sha and the later one meets a 409 caused by the first; overlapping saves are not represented. The reload that a 409 starts without awaiting it completes inside the call.
- AuthManager.AuthManager.HandleSyncConflict: the reload `loadFromGitHubWithMerge()` is started without `await`, and the model completes it before the call returns. Edits and saves that the page lets run while that reload is pending are not represented.
- AuthManager.AuthManager.LoadFromGitHubWithMerge: the async function is modelled as one uninterrupted step. Its fetch and `json()` awaits are atomic, so edits made to the document while the response is pending are not represented; the merge takes the document as it is at the call.

## Findings

| source | as written | input that shows it | evidently intended | confidence | as-written member | corrected member |
|---|---|---|---|---|---|---|
| src/modules/AuthManager.js:279-284 | a remote child whose (name, type) key is already present locally is merged only when it is a technology; a known sub-category is skipped | local `[a{children:[s{children:[]}]}]`, remote `[a{children:[s{children:[t]}]}]`: the merge completes and `t` is missing | every node of the remote copy, at every depth, is present after merging, so a known sub-category is merged recursively | not executed | SyncMerge.NestedItemsLost | SyncMerge.DeepMergeChildrenCovers |
