# Hierarchy editor: a verified model of its tree engine

`script.js` is a drag-and-drop editor for a hierarchy of policies, scripts,
registry entries and applications. Any of them can be nested inside groups. The
DOM holds the tree:

- every node is a `.node` element with a `data-id` of the form `node-N`;
- the top-level list and each group's `.node-list` hold their children in order.

The editor does the following:

- It numbers new nodes with a global `idCounter`.
- It inserts new nodes and moves existing ones before a reference sibling, or at
  the end of a list.
- It refuses to move a group into one of its own descendants.
- It deletes a node together with everything inside it.
- After each change it refreshes two things: the badge of every affected group
  (its direct-child count and `empty` flag), and the per-kind totals of the
  summary panel with the "empty hierarchy" placeholder.

This project models that engine in Dafny.

- `Forest` models the tree as an arena: a map from id to node (kind, title,
  parent list) and a map from list (the root list, or a group's list) to the
  ordered ids it holds. `WellFormed` says each node is listed exactly where its
  parent says. A ghost rank map (`Ranked`) witnesses that the tree has no cycle.
  `Within`, `Subtree` and `PreventCircularMove` are the ancestor queries.
- `Siblings` models the two list edits the DOM performs: removing a child, and
  `insertBefore` / `appendChild`.
- `Mutations` defines the three tree edits as functions on the arena (`MoveTo`,
  `Insert`, `Delete`) and proves what each does and that each keeps the forest
  well formed and acyclic.
- `Tally` covers the summary counters and the placeholder.
- `Page` covers the group badges and the invariant `Consistent` that ties the
  whole page together.
- `Templates` and `Decimal` cover the template table, the default titles and the
  `node-N` id text.
- `DropResolution` covers the search for the reference sibling under the pointer.
- `EditorState` gathers the page into one value. It defines what each operation
  turns it into, and proves that each operation keeps the page consistent.
- `Editor.Hierarchy` is the editor itself, a class whose fields are:
  - the tree;
  - the counter;
  - the badges;
  - the counters;
  - the placeholder flag;
  - the status line.

  Its methods perform the script's steps in place, in the script's order, and
  are proved to produce exactly the transitions of `EditorState`. The method
  `Drop` is one run of the `drop` handler.
- `Bubbling` follows one `drop` event through every zone it reaches, from the
  zone under the pointer outwards, for a palette (create) payload.

## Model

| member | source | states |
|---|---|---|
| Siblings.InsertBefore | script.js:176-180 | inserting a node that is not in the list adds exactly that node; it lands immediately before the reference, or last when there is none, and the rest keeps its order |
| Siblings.Without | script.js:100 | removing a child leaves every other child and only those, and the removed id is gone |
| Siblings.InsertThenRemove | script.js:176-180 | taking the inserted node out again gives back the original list; insertion into a list without duplicates creates none |
| Siblings.ReinsertInPlace | script.js:176-180 | putting a node back before its current next sibling, or last when it is already last, gives its list back unchanged |
| Decimal.ToNatFromNat | script.js:121 | the decimal text of a counter value reads back as that value |
| Decimal.TrailingNumberAfter | script.js:10 | after a separator, the number at the end of a title such as `Policy N` is N |
| Decimal.FromNat | script.js:121 | the text of a counter value is at least one decimal digit, with a leading zero only for 0 itself |
| Templates.TemplateKind | script.js:8-34 | a template name finds a configuration exactly when it is one of the five keys, and then yields the kind of that key |
| Templates.IdText | script.js:121 | the `data-id` of the node numbered N is `node-` followed by decimal digits that read back as N |
| Templates.LabelNumberIsId | script.js:195-199 | a default title is the kind's name, a space and a number; that number and the number of the node's `data-id` are both the counter value, because `config.label()` runs before the counter moves on |
| Templates.IdTextInjective | script.js:121 | different counter values give different `data-id` texts |
| Templates.ResolveId | script.js:293 | looking up a `data-id` text finds only a live node whose id text is exactly that text |
| Templates.ResolveIdFinds | script.js:304 | every live node is found by its own `data-id` |
| DropResolution.FirstBelowPointer | script.js:221-231 | the reference is a non-dragged child whose midpoint is below the pointer, with no earlier such child; there is no reference exactly when no such child exists |
| DropResolution.GetInsertionReference | script.js:221-231 | the scan over the children with early return finds the reference that `FirstBelowPointer` specifies |
| Forest.PreventCircularMove | script.js:157-163 | the guard fires exactly when the target list belongs to a proper descendant of the moved node; a group's own list never trips it |
| Forest.Within | script.js:159 | a node lies within another only when it is that node or ranks strictly above it, so the walk up through enclosing groups ends |
| Forest.OwnListAllowed | script.js:157-163 | the guard never refuses the list a node is already in, and that list is never the node's own list |
| Forest.Subtree | script.js:100 | the removed set contains the node and every child of every member, and nothing outside the node |
| Forest.HasNodesIffRootListed | script.js:57-61 | the hierarchy holds some node exactly when the top-level list is not empty |
| Mutations.MoveKeepsWellFormed | script.js:175-180 | after a move every list is duplicate-free and every node is listed exactly where its parent says |
| Mutations.MoveTo | script.js:175-180 | a move keeps the same nodes and the same lists; the moved node's parent becomes the target and it is in the target list |
| Mutations.NoOpMove | script.js:175-180 | dropping a node into its own list, before its current next sibling or at the end when it is last, leaves the tree exactly as it was |
| Mutations.MovePlacesNode | script.js:176-180 | the moved node is in the target list once, immediately before the reference or last |
| Mutations.MoveLeavesOldList | script.js:175-180 | the moved node is in no list other than the target |
| Mutations.MoveKeepsOrder | script.js:175-180 | apart from the moved node itself, every list holds the same children in the same order as before |
| Mutations.MoveKeepsRanked | script.js:170-180 | a move that passes the guard and is not a self-drop leaves the tree acyclic |
| Mutations.MoveAcyclicExactly | script.js:157-180 | the tree after a move has no cycle exactly when the target is neither the node's own list nor blocked by the guard |
| Mutations.Delete | script.js:98-100 | after `node.remove()` the live nodes are exactly those not inside the removed node |
| Mutations.DeleteKeepsForest | script.js:98-100 | deletion leaves a well-formed acyclic tree; surviving nodes are untouched, the parent list loses only the node, and other surviving lists are unchanged |
| Mutations.InsertKeepsWellFormed | script.js:202-208 | inserting a new node keeps every list duplicate-free and consistent with the recorded parents |
| Mutations.InsertKeepsRanked | script.js:204-208 | inserting a new node keeps the tree acyclic, adds exactly that node and changes no other node |
| Mutations.InsertPlacesNode | script.js:204-208 | the new node is in the target list once, before the reference or last; the rest of that list keeps its order, a new group's list is empty, and no other list changes |
| Tally.Tally | script.js:41-48 | each counter is the number of nodes of its kind at any depth |
| Tally.TallyCoversAll | script.js:41-48 | the five counters together count every node exactly once |
| Tally.MoveKeepsTally | script.js:186 | a move changes no counter |
| Tally.InsertTally | script.js:211 | adding a node raises the counter of its kind by one and no other |
| Tally.DeleteTally | script.js:103 | a deletion lowers each counter by the number of removed nodes of that kind, nested ones included |
| Tally.PlaceholderIffEmpty | script.js:57-61 | the top-level list is empty exactly when all counters read zero |
| Page.MoveKeepsBadges | script.js:182-185 | after a move and the refresh of the previous and new parent groups, every group's badge shows its direct-child count and `empty` whether that is 0 |
| Page.Badge | script.js:108-114 | the group carries the `empty` class exactly when its badge reads 0 |
| Page.BadgeCountsChildren | script.js:108-114 | in a well-formed tree the badge is the number of live nodes whose parent is the group's list |
| Page.InsertKeepsBadges | script.js:209-210 | after an insertion, registering a new group and refreshing the target group make every badge current |
| Page.DeleteKeepsBadges | script.js:101-102 | after a deletion and the refresh of the former parent group, every surviving group's badge is current and removed groups have none |
| Page.MoveKeepsConsistent | script.js:175-187 | an allowed move keeps the page consistent: forest, badges, counters, placeholder and issued ids |
| Page.InsertKeepsConsistent | script.js:193-211 | adding a node with the counter's value keeps the page consistent; that id was never issued and the counter moves past it |
| Page.DeleteKeepsConsistent | script.js:98-103 | deleting a node keeps the page consistent |
| EditorState.InitialInv | script.js:325-329 | the initial page is consistent, with every counter at zero and the placeholder shown |
| EditorState.MoveKeepsInv | script.js:165-188 | an allowed move keeps the page consistent and leaves the id counter, the counters and the placeholder as they were |
| EditorState.AfterMove | script.js:175-186 | after a move the id counter and the set of nodes are unchanged, the node's parent is the target list, the target group's badge is its current count, and the placeholder shows exactly when the tree is empty |
| EditorState.NoOpMoveKeepsPage | script.js:165-188 | dropping a node back where it is passes the guard and leaves the page exactly as it was; only the status line changes, to "Item moved." |
| EditorState.AddKeepsInv | script.js:190-213 | adding takes a never-issued id equal to the counter, titles the node with that number, places it in the target list, raises its kind's counter by one and hides the placeholder |
| EditorState.AfterAdd | script.js:193-211 | an addition raises the counter by one and adds exactly one node, whose id is the old counter value, with the template's kind, the default title for that number and the target list as parent; the placeholder is hidden |
| EditorState.DeleteKeepsInv | script.js:98-105 | deleting keeps the page consistent under the same acyclicity witness and leaves the id counter alone |
| EditorState.AfterDelete | script.js:98-103 | a deletion leaves the counter alone, removes the node, keeps exactly the nodes not within it, and refreshes the former parent group's badge |
| EditorState.DeleteLowersCounts | script.js:98-103 | after a deletion each counter has dropped by the number of removed nodes of its kind |
| Editor.Hierarchy.constructor | script.js:325-329 | `initialize` over an empty hierarchy: a consistent page with the counter at 1, all counters at 0 and the placeholder shown |
| Editor.Hierarchy.ShowStatus | script.js:36-39 | the status line shows the given message |
| Editor.Hierarchy.UpdateCounts | script.js:41-62 | the counters become the per-kind totals of the tree and the placeholder shows exactly when the tree is empty |
| Editor.Hierarchy.UpdateGroupState | script.js:107-115 | the group's badge becomes its direct-child count and `empty` holds exactly when the list is empty; no other badge changes |
| Editor.Hierarchy.CreateNode | script.js:117-137 | the new node's id is the counter's old value, the counter moves on, the id joins the issued ids, and a new group shows a badge of 0 |
| Editor.Hierarchy.Attach | script.js:202-211 | the created node is inserted in the target list, the target group's badge is refreshed and the counters are recounted |
| Editor.Hierarchy.AddChecked | script.js:193-212 | a known template adds its node as `EditorState.AfterAdd` describes, keeps the page consistent and reports the addition |
| Editor.Hierarchy.AddNodeFromTemplate | script.js:190-213 | an unknown template name changes nothing, the counter included; a known one adds a node as `EditorState.AfterAdd` describes |
| Editor.Hierarchy.Relocate | script.js:175-186 | the node is moved, both parent groups' badges are refreshed and the counters are recounted, as `EditorState.AfterMove` describes |
| Editor.Hierarchy.MoveChecked | script.js:175-187 | an allowed move is performed as `EditorState.AfterMove` describes, keeps the page consistent and reports "Item moved." |
| Editor.Hierarchy.MoveNode | script.js:165-188 | a move into a proper descendant changes nothing but the status, which shows the warning; a group dropped into its own list changes nothing at all; any other move is performed and reported as a success, even when the node ends where it was (then the page is unchanged, by `EditorState.NoOpMoveKeepsPage`) |
| Editor.Hierarchy.Prune | script.js:100 | `node.remove()` takes the node and its whole subtree out of the tree |
| Editor.Hierarchy.DropBadges | script.js:100 | the badges of removed groups leave the page with their elements |
| Editor.Hierarchy.Remove | script.js:99-103 | the node and its subtree are removed, the former parent group's badge is refreshed and the counters are recounted, as `EditorState.AfterDelete` describes |
| Editor.Hierarchy.DeleteNode | script.js:98-105 | deletion is performed as `EditorState.AfterDelete` describes, keeps the page consistent and reports "Item deleted." |
| Editor.Hierarchy.Drop | script.js:269-308 | over the trash, a move payload naming a live node deletes it and anything else changes nothing; over a list, a create payload adds before the reference under the pointer, a move payload naming a live node moves it there under the guard, and an unknown id changes nothing |
| Bubbling.EnclosingLists | script.js:79-82 | a drop on a list reaches that list's zone first; a drop on the list of a live group reaches next the zone of the list holding that group |
| Bubbling.EnclosingZones | script.js:79-82 | after the first zone, the event reaches exactly the lists that hold the group owning the list, or one of the groups enclosing it |
| Bubbling.EnclosingListed | script.js:79-82 | in a well-formed tree every zone the event reaches is a live list, and the last one is the top-level list |
| Bubbling.BubbledCreate | script.js:269-308 | the handler of each zone on the path runs `addNodeFromTemplate` in turn; the counter moves on once per zone and no node is lost (the node count is `BubbledCreateCount`) |
| Bubbling.BubbledCreateCount | script.js:269-308 | each zone a create payload reaches adds one node of its own |
| Bubbling.NestedCreateAddsTwice | script.js:269-308 | one create payload dropped on a group's list adds at least two nodes; for a top-level group the zones reached are the group's list and then the top-level list |
| Bubbling.SingleDropAddsOne | script.js:301-302 | one handler run for a create payload adds exactly one node, in the list under the pointer |

## Left out

- Event wiring is not modelled: the `registerNode` listeners, `makePaletteDraggable`, `handleDragStart` / `handleDragEnd`, the `dragover` / `dragleave` handlers and the listener registration in `initialize`. The delete button's click runs the modelled `DeleteNode`.
- Payload decoding is not modelled (`dataTransfer`, `JSON.parse`, script.js:280-289). The payload is the datatype `Payload`. A missing or malformed payload, or an action other than `create` or `move`, leaves the page unchanged.
- Layout is an input, not computed. `getBoundingClientRect` and the floating-point midpoint `top + height / 2` are not modelled: each child's midpoint is a given integer (`mid`), and so is the pointer position.
- The node carrying the `.dragging` class is taken to be the dragged node when the payload moves an existing node, and no node when it creates one.
- Presentation is not modelled:
  - hover and drop-indicator classes (`clearDropIndicators`, `droppable-hover`, `drop-before`, `drop-at-end`);
  - the `kind-*` classes and icons;
  - collapsing a group on double-click;
  - editing a title, including the badge refresh run on blur.
- The status line is modelled as the message last shown, with its tone and its exact text (`Editor.Message`). The initial text of the page is not modelled.
- Propagation of a drop is modelled only for create payloads. The drop handler never stops the event's propagation, and a group's zone lies inside the group element (script.js:80), which sits in the list of an enclosing zone. A drop on a nested list therefore runs the handler of every enclosing zone, innermost first. `Editor.Hierarchy.Drop` models one handler run. `Bubbling.BubbledCreate` follows the whole chain for a create payload, where each zone adds a node of its own (see Findings). The chain for a move payload is not modelled. There each enclosing handler moves the node again, so it ends in the top-level list. A group dropped into its own list makes the first handler throw at `insertBefore` (script.js:177-179), and the enclosing handlers then move it out.
- A new group is assumed to be registered as a group. `createGroup` calls `registerNode` (script.js:123) before `addNodeFromTemplate` sets `data-kind="group"` (script.js:196). So the group branch of `registerNode` (script.js:79-95) runs only if the group template's markup already carries `data-kind="group"`. That branch makes the group's list a drop zone, adds `.node-group` and sets the badge to 0. The model assumes that it runs: `Page.Registered` gives a new group a badge of 0, and every group's list is a drop zone. If it did not run, a new group would accept no drop, and `closest('.node-group')` would never find it, so its badge would never be refreshed. `index.html` is not part of this model.
- The initial page is assumed to hold no nodes: `index.html` is not part of this model.
- Every drop zone other than the trash is assumed to resolve to a list. Under that assumption, the early returns `if (!dropList) return` (script.js:168) and `if (!list) return` (script.js:203) cannot fire.
- Names of inherited object members, such as `toString`, are not template names in the model. `templateConfig[name]` finds such a member in the source, but `config.label()` then throws before the counter moves. The model therefore treats these names like any unknown name: nothing changes.
- `idCounter` is modelled as an unbounded natural number. JavaScript numbers count exactly only up to 2^53.
- Editor.Hierarchy.Drop: its contract states how the tree, badges and counters change in every branch. It does not restate the status line after an addition, a successful move or a deletion; `AddNodeFromTemplate`, `MoveNode` and `DeleteNode` state that.

## Findings

| source | as written | input that shows it | evidently intended | confidence | as-written member | corrected member |
|---|---|---|---|---|---|---|
| script.js:269-308 | the drop handler never stops propagation, so every zone enclosing the one under the pointer handles the same drop | a `policy` create payload dropped on the list of a top-level group: the group's zone adds a policy inside the group, then the top-level zone adds a second policy at the top level | one drop adds one node, in the list under the pointer | high from the script's text; not executed | Bubbling.NestedCreateAddsTwice | Bubbling.SingleDropAddsOne |
