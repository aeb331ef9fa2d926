# Word hierarchy editor — a Dafny model

The application edits a forest of words. Each word has an optional id, a
name and an ordered list of sub-words. The user builds the forest and
rearranges it with drag and drop and with per-word buttons. The forest can
be saved under an id into a table of saved hierarchies kept in the
application store, and it can be downloaded as JSON with every id removed.

This project models the core of that behaviour:

- `forest.dfy` (module `Forest`) holds the forest as a value:
  `Item(id: Option<Id>, name, items: seq<Item>)`. It also provides ways to
  observe a forest: the ids in preorder (`Ids`), the words (`Nodes`), the names in preorder
  (`Names`), and the parent/child links in preorder (`Links`). Together the
  sequences of links and of names fix the whole forest, so an edit that
  keeps them outside one block keeps every other list, in its order, and
  every other name. The key invariant is `Unique`: every
  word has an id and no id occurs twice. Identity comparisons of the source
  (`===`, `includes`, `indexOf`) are modelled as comparisons of ids, which
  is sound under `Unique`.
- `hierarchies.dfy` (module `Hierarchies`) holds the editing operations of
  the `Hierarchies` component. Each one is a specification function.
  `isDescendant`, `findParent` and `removeItem` loop in the source, so they
  are also methods with loops proved equal to those functions. The class
  `Editor` holds the live forest, and its methods perform `moveItem`,
  `removeItem`, `orderItem`, `switchItem` and `createItem` step by step.
  Each method is proved to leave exactly the forest its specification
  function describes.
- `hierarchy_slice.dfy` (module `HierarchySlice`) models the store's table
  of saved hierarchies. Its reducers are `saveHierarchy`, an upsert keyed by
  id, and `removeHierarchy`. The class `HierarchyStore` holds the table.
- `page.dfy` (module `Page`) models the home page. `formatData` strips the
  ids before download. The root "Criar" button appends a new root. The id
  under which the forest is saved is `currentHierarchy?.id || uuidv4()`.
  The class `Home` holds the page's state.
- `gestures.dfy` (module `Gestures`) models the decisions of one word of
  the tree, as pure functions from what the drag-and-drop monitor reports
  to the edit requested:
  - a drop onto the word;
  - the end of a drag that no target accepted;
  - a click while a word chosen with "Mover" is pending;
  - which option buttons are shown or disabled, and what they do.

`switchItem` is modelled as written. Dragging upwards uses the offset
`indexOfDropItem - indexOfDraggedItem`. Dragging downwards uses
`indexOfDraggedItem + indexOfDropItem`. `SwitchDownOvershoots` shows a
concrete forest where the downward formula carries the word past its
target.

The nesting threshold of a drop is the constant 50 px found in
`DraggableItem.tsx`. It is not a configurable parameter.

## Model

| member | source | states |
|---|---|---|
| Forest.IndexOf | src/app/components/Hierarchies.tsx:91 | the first index whose entry has id `x`, or -1 exactly when no entry has it |
| Hierarchies.IsDescendant | src/app/components/Hierarchies.tsx:13-25 | the loop answers true exactly when `child` is an entry of `parent.items` or a descendant of one |
| Hierarchies.NotOwnDescendant | src/app/components/Hierarchies.tsx:13-25 | in a unique forest a word is never its own descendant |
| Hierarchies.ParentOf | src/app/components/Hierarchies.tsx:27-39 | whatever `findParent` returns has `x` among its immediate entries |
| Hierarchies.ParentOfSpec | src/app/components/Hierarchies.tsx:27-39 | the parent found is a word of the forest; nothing is found exactly when no word has `x` as an immediate entry |
| Hierarchies.ParentOfRoot | src/app/components/Hierarchies.tsx:27-39 | in a unique forest, `findParent` finds nothing exactly for the root-level words |
| Hierarchies.ParentUnique | src/app/components/Hierarchies.tsx:30-33 | in a unique forest, the word that has `x` as an entry is the one `findParent` returns |
| Hierarchies.FindParent | src/app/components/Hierarchies.tsx:27-39 | the loop with its early returns yields exactly `ParentOf` |
| Hierarchies.Remove | src/app/components/Hierarchies.tsx:89-112 | the flag is true exactly when the id occurs in the forest; when it is false the forest is unchanged |
| Hierarchies.RemoveInEach | src/app/components/Hierarchies.tsx:98-105 | when no entry of the list has the id, the children's pass reports exactly whether the id occurs, and it changes nothing when it reports false |
| Hierarchies.RemoveFrom | src/app/components/Hierarchies.tsx:89-112 | the method returns exactly the list and the flag of `Remove` |
| Hierarchies.RemoveFromEach | src/app/components/Hierarchies.tsx:99-104 | the loop over the children returns exactly the result of `RemoveInEach` |
| Hierarchies.RemoveSubtree | src/app/components/Hierarchies.tsx:94-97 | removing a present word takes exactly its subtree's ids out of the forest; the rest stays unique and the id is gone |
| Hierarchies.RemoveEachAbsent | src/app/components/Hierarchies.tsx:98-105 | the children's pass changes nothing when the id is absent |
| Hierarchies.RemoveIds | src/app/components/Hierarchies.tsx:89-112 | `removeItem` takes out exactly the preorder block of ids of `x` (the word and its subtree); every other id keeps its order |
| Hierarchies.RemoveLinks | src/app/components/Hierarchies.tsx:89-112 | `removeItem` takes out the link of `x` to its parent and the links inside its subtree; every other link keeps its order |
| Hierarchies.RemoveNames | src/app/components/Hierarchies.tsx:89-112 | `removeItem` takes out the names of the block of `x`; every other name keeps its order |
| Hierarchies.Append | src/app/components/Hierarchies.tsx:76 | `push(n)` as a change of a list of sub-words: `n` goes at the end |
| Hierarchies.MoveCancelled | src/app/components/Hierarchies.tsx:45-67 | the four guards of `moveItem` in the order it tests them: the target is the dragged word, the target lies in the dragged subtree, the word is a root and there is no target, the word is already an entry of the target |
| Hierarchies.Relocated | src/app/components/Hierarchies.tsx:73-81 | the relocation once no guard fired: the dragged word is removed and pushed onto the target's list, or onto the root list |
| Hierarchies.Moved | src/app/components/Hierarchies.tsx:41-87 | `moveItem`: the forest unchanged when a guard fires, the relocation otherwise; its properties are stated by `MovePreserves`, `MoveLinks`, `MoveFrame`, `MoveLands` and `MoveTwice` |
| Hierarchies.MovePreserves | src/app/components/Hierarchies.tsx:41-87 | a move keeps exactly the multiset of ids, so the forest stays unique |
| Hierarchies.MoveLinks | src/app/components/Hierarchies.tsx:73-81 | a move replaces the single link of `x` to its old parent by a link to the target (or the root list); every other link is kept (their order is `MoveFrame`) |
| Hierarchies.MoveFrame | src/app/components/Hierarchies.tsx:73-81 | in the preorder sequence of links, the block of `x` is taken out and put back with the target as parent; with that block taken out the sequences before and after are equal, so every other word keeps its parent and its place |
| Hierarchies.MoveNamesFrame | src/app/components/Hierarchies.tsx:73-81 | with the names of the block of `x` taken out, the preorder sequences of names before and after a move are equal |
| Hierarchies.MoveLands | src/app/components/Hierarchies.tsx:73-81 | after a move the word keeps its subtree and is the last entry of the target, or the last root |
| Hierarchies.PushLands | src/app/components/Hierarchies.tsx:76 | after `push`, the pushed word is the target's last entry and a word of the forest |
| Hierarchies.MoveTwice | src/app/components/Hierarchies.tsx:59-67 | repeating a move changes nothing: a guard fires on the second call |
| Hierarchies.CycleGuardNeeded | src/app/components/Hierarchies.tsx:50-53 | without the circular-reference guard, moving a word under its own subtree would lose words |
| Hierarchies.Reordered | src/app/components/Hierarchies.tsx:114-147 | `orderItem`: the word's list is found through `findParent`; its properties are stated by `ReorderKeeps`, `ReorderFrame`, `ReorderSiblings`, `ReorderParent`, `ReorderNoOp` and `ReorderSameIndex` |
| Hierarchies.ReorderUnder | src/app/components/Hierarchies.tsx:117-132 | the list is the parent's `items` or the root list; a word not in it leaves the forest unchanged; otherwise the new index is clamped |
| Hierarchies.ReorderAt | src/app/components/Hierarchies.tsx:134-139 | the two splices are done only when the clamped index differs from the old one |
| Hierarchies.WriteBack | src/app/components/Hierarchies.tsx:141-145 | the spliced list is written back through the parent, or becomes the root list |
| Hierarchies.MoveWithin | src/app/components/Hierarchies.tsx:137-138 | `splice(index, 1)` followed by `splice(newIndex, 0, item)`; its properties are stated by `MoveWithinSpec` and `MoveWithinKeeps` |
| Hierarchies.Clamp | src/app/components/Hierarchies.tsx:124-132 | the new index lies in the list; it equals the requested index when that is in range, and otherwise it is the nearer end |
| Hierarchies.MoveWithinSpec | src/app/components/Hierarchies.tsx:137-138 | the two splices give a permutation with the moved entry at the new index and the others in their old order; equal indices change nothing |
| Hierarchies.MoveWithinKeeps | src/app/components/Hierarchies.tsx:137-138 | the two splices keep the ids and the links of the list |
| Hierarchies.ReorderKeeps | src/app/components/Hierarchies.tsx:114-147 | `orderItem` keeps every id and every parent/child link, so the forest stays unique (the order of everything else is `ReorderFrame`) |
| Hierarchies.ReorderSiblings | src/app/components/Hierarchies.tsx:114-147 | after `orderItem` the word's list is its old list with the word moved from its index to the clamped index |
| Hierarchies.ReorderParent | src/app/components/Hierarchies.tsx:116-117 | `orderItem` leaves the word under the same parent, or at the root level |
| Hierarchies.ReorderFrame | src/app/components/Hierarchies.tsx:114-147 | in the preorder sequences of links and of names, only the block of the word's own list changes, into the block of its two-splice rearrangement; every other list and every name is kept |
| Hierarchies.ReorderNoOp | src/app/components/Hierarchies.tsx:118-122 | an offset of 0, or a word not in the forest, leaves the forest unchanged |
| Hierarchies.ReorderSameIndex | src/app/components/Hierarchies.tsx:134 | when the clamped index equals the old one, the forest is unchanged |
| Hierarchies.SwitchOffset | src/app/components/Hierarchies.tsx:156-171 | an offset exists exactly when `findParent` gives the same answer for both words; it is computed in their shared list |
| Hierarchies.OffsetIn | src/app/components/Hierarchies.tsx:161-170 | upwards the offset is `indexOfDropItem - indexOfDraggedItem`, otherwise `indexOfDraggedItem + indexOfDropItem` |
| Hierarchies.Switched | src/app/components/Hierarchies.tsx:149-179 | `switchItem`: no offset leaves the forest unchanged, an offset is handed to `orderItem`; its properties are stated by `SwitchKeeps`, `SwitchUp` and `SwitchDownOvershoots` |
| Hierarchies.SwitchKeeps | src/app/components/Hierarchies.tsx:149-179 | words with different parents are not switched; in every case ids and links are kept |
| Hierarchies.SwitchUp | src/app/components/Hierarchies.tsx:166-167 | dragging up onto a sibling puts the dragged word at the target's index; the rest keep their order |
| Hierarchies.SwitchDownOvershoots | src/app/components/Hierarchies.tsx:168-170 | with roots A, B, C, D, dragging B down onto C leaves A, C, D, B |
| Hierarchies.Created | src/app/components/Hierarchies.tsx:181-189 | `createItem`: the word is pushed onto the parent's list or the root list; its properties are stated by `CreateAdds`, `CreateFrame`, `CreateLands` and `CreateUnderAbsent` |
| Hierarchies.CreateAdds | src/app/components/Hierarchies.tsx:181-189 | creating adds exactly the new word's ids and links; a leaf raises the count by one (the order of everything else is `CreateFrame`) |
| Hierarchies.CreateFrame | src/app/components/Hierarchies.tsx:181-189 | in the preorder sequences of links and of names, the new word's block is inserted right after the block of the parent's list (or at the end); every other entry keeps its place, so every other list keeps its order and every word its name |
| Hierarchies.CreateLands | src/app/components/Hierarchies.tsx:182-186 | the new word is the last entry of the parent, or the last root |
| Hierarchies.CreateUnderAbsent | src/app/components/Hierarchies.tsx:182-183 | pushing onto a parent that is not in the forest leaves the forest unchanged |
| Hierarchies.Editor.MoveItem | src/app/components/Hierarchies.tsx:41-87 | the guards in source order, then removal and push, leave exactly `Moved` of the old forest |
| Hierarchies.Editor.RemoveItem | src/app/components/Hierarchies.tsx:89-112 | the stored forest and the returned flag are exactly `Remove` of the old forest |
| Hierarchies.Editor.OrderItem | src/app/components/Hierarchies.tsx:114-147 | the clamping and the two splices leave exactly `Reordered` of the old forest |
| Hierarchies.Editor.SwitchItem | src/app/components/Hierarchies.tsx:149-179 | the offset, then `orderItem` when there is one, leave exactly `Switched` of the old forest |
| Hierarchies.Editor.CreateItem | src/app/components/Hierarchies.tsx:181-189 | pushing onto the parent's list or the root list leaves exactly `Created` of the old forest |
| HierarchySlice.IndexOfId | src/app/redux/features/hierarchySlice.tsx:53-55 | the first index with the id, or -1 exactly when no record has it |
| HierarchySlice.FindIndex | src/app/redux/features/hierarchySlice.tsx:31-33 | the search loop returns exactly `IndexOfId` |
| HierarchySlice.NatToString | src/app/redux/features/hierarchySlice.tsx:38 | the numeral in the generated name is non-empty and made of decimal digits |
| HierarchySlice.ParseNatToString | src/app/redux/features/hierarchySlice.tsx:38 | reading the numeral back gives the number |
| HierarchySlice.NameForInjective | src/app/redux/features/hierarchySlice.tsx:38 | different record counts give different generated names |
| HierarchySlice.NameFor | src/app/redux/features/hierarchySlice.tsx:38 | the generated name `Hierarquia ${count + 1}`; `NameForInjective` shows different counts give different names |
| HierarchySlice.Saved | src/app/redux/features/hierarchySlice.tsx:26-51 | `saveHierarchy` on the table: a new record in front for an unknown id, else the record's update date and forest replaced; its properties are stated by `SaveNew`, `SaveExisting` and `SaveKeepsIdsUnique` |
| HierarchySlice.Removed | src/app/redux/features/hierarchySlice.tsx:52-59 | `removeHierarchy` on the table: the record with the id spliced out, if any; its properties are stated by `RemoveExisting` and `RemoveAbsent` |
| HierarchySlice.SaveNew | src/app/redux/features/hierarchySlice.tsx:35-46 | an unknown id adds one record in front, named `Hierarquia n+1`, with both dates `now`; the old records follow unchanged |
| HierarchySlice.SaveExisting | src/app/redux/features/hierarchySlice.tsx:49-50 | a known id keeps the count, the other records and its own id, name and creation date; only the update date and the forest change |
| HierarchySlice.SaveKeepsIdsUnique | src/app/redux/features/hierarchySlice.tsx:26-51 | saving keeps record ids unique; the first record with the id then holds the saved forest and the date `now` |
| HierarchySlice.RemoveExisting | src/app/redux/features/hierarchySlice.tsx:52-59 | removing a known id splices out exactly that record and keeps the others in order; with unique ids the id is then gone |
| HierarchySlice.RemoveAbsent | src/app/redux/features/hierarchySlice.tsx:56 | removing an unknown id changes nothing |
| HierarchySlice.HierarchyStore.SaveHierarchy | src/app/redux/features/hierarchySlice.tsx:26-51 | the reducer leaves exactly `Saved` of the old table |
| HierarchySlice.HierarchyStore.RemoveHierarchy | src/app/redux/features/hierarchySlice.tsx:52-59 | the reducer leaves exactly `Removed` of the old table |
| Page.Stripped | src/app/page.tsx:48-54 | the export shape: every word at every depth without its id; its properties are stated by `StrippedIdFree`, `StrippedShape` and `StrippedFixpoint` |
| Page.FormatData | src/app/page.tsx:48-54 | the loop, with its recursive calls, returns exactly `Stripped` of the input |
| Page.StrippedIdFree | src/app/page.tsx:48-54 | after formatting, no word at any depth has an id |
| Page.StrippedShape | src/app/page.tsx:48-54 | formatting keeps every list's length, every name in order, and the number of words |
| Page.StrippedFixpoint | src/app/page.tsx:48-54 | formatting leaves a forest as it is exactly when it is already id-free, so formatting twice is formatting once |
| Page.CreatedRoot | src/app/page.tsx:127-132 | the root "Criar" button: the typed name appended as a new leaf root with the new id |
| Page.CreateRootAppends | src/app/page.tsx:127-132 | the root "Criar" button appends exactly one leaf with the typed name, as `createItem` without a parent does; an unused id keeps the forest unique |
| Page.SaveId | src/app/page.tsx:37 | `currentHierarchy?.id || uuidv4()`: the open hierarchy's id when it is there and non-empty, the new id otherwise |
| Page.SaveDataUpserts | src/app/page.tsx:32-41 | the id used is the open hierarchy's when it has a non-empty one, else the new id; a record with that id in the table is updated in place, keeping its id, name and creation date and every other record; otherwise (none open, or the open one deleted from the table) a record with that id is added in front with the generated name and both dates `now` |
| Page.Home.SaveData | src/app/page.tsx:32-41 | the store's table becomes `Saved` under `currentHierarchy?.id`, or the new id when that is missing or empty |
| Page.Home.Download | src/app/page.tsx:56-74 | the data written out is the formatted copy of the live forest, and it is id-free |
| Page.Home.CreateRoot | src/app/page.tsx:127-132 | the name field is cleared and the forest gains the new root; the open hierarchy is unchanged |
| Gestures.Apply | src/app/components/Hierarchies.tsx:193-202 | the edit a gesture asks for, performed by the editor functions the component hands to every word: `moveItem`, `switchItem`, `orderItem`, `removeItem` or `createItem` |
| Gestures.ApplyPreserves | src/app/components/DraggableItem.tsx:139-165 | every edit a gesture asks for, except creation and removal, keeps exactly the forest's ids |
| Gestures.OnDrop | src/app/components/DraggableItem.tsx:141-164 | a drop on itself or with a missing offset asks for nothing; a horizontal distance of at least 50 asks for `moveItem` onto this word; otherwise `switchItem` with the movement |
| Gestures.DropEffect | src/app/components/DraggableItem.tsx:139-165 | a drop on itself or with a missing offset does nothing; a drop at least 50 px to the right nests the word as the target's last entry unless a guard fires; any other drop is `switchItem` with the vertical movement; no word is lost |
| Gestures.OnDragEnd | src/app/components/DraggableItem.tsx:127-132 | a drag that no target accepted asks for `moveItem` to the root list |
| Gestures.DragEndEffect | src/app/components/DraggableItem.tsx:127-132 | a drag that no target accepted makes a nested word the last root and leaves a root where it is |
| Gestures.OnClick | src/app/components/DraggableItem.tsx:74-88 | a click moves the pending word under this one, and clears what is pending |
| Gestures.ClickEffect | src/app/components/DraggableItem.tsx:74-88 | after a click nothing is pending; with nothing pending, or a click on the pending word itself, the forest is unchanged |
| Gestures.ClickLands | src/app/components/DraggableItem.tsx:76-82 | a click while `x` is pending makes `x` the clicked word's last entry, unless a guard of `moveItem` fires |
| Gestures.ReorderButtons | src/app/components/DraggableItem.tsx:236-262 | the up and down buttons exist for a word with a parent of more than one entry, each disabled by comparing ids with the first or the last entry |
| Gestures.Up | src/app/components/DraggableItem.tsx:241-243 | up is `orderItem(item, -1)` |
| Gestures.Down | src/app/components/DraggableItem.tsx:253-255 | down is `orderItem(item, 1)` |
| Gestures.ReorderButtonsShown | src/app/components/DraggableItem.tsx:236-262 | up and down are shown exactly for a nested word with a sibling; up is disabled exactly for the first entry and down exactly for the last |
| Gestures.ButtonFlags | src/app/components/DraggableItem.tsx:240-252 | in a unique list the first (last) entry has the word's id exactly when the word sits at index 0 (the last index) |
| Gestures.UpEffect | src/app/components/DraggableItem.tsx:241-243 | up on the first entry changes nothing; otherwise the word moves one place up under the same parent |
| Gestures.DownEffect | src/app/components/DraggableItem.tsx:253-255 | down on the last entry changes nothing; otherwise the word moves one place down under the same parent |
| Gestures.UnlinkButton | src/app/components/DraggableItem.tsx:289-300 | "Desvincular" exists for a word with a parent and asks for `moveItem` to the root list |
| Gestures.UnlinkOffered | src/app/components/DraggableItem.tsx:289-300 | "Desvincular" is offered exactly to the nested words |
| Gestures.UnlinkLands | src/app/components/DraggableItem.tsx:291-293 | "Desvincular" makes the word the last root, with its subtree, and keeps every word |
| Gestures.DeleteEffect | src/app/components/DraggableItem.tsx:302 | "Excluir" takes the word and its subtree out of the forest, which stays unique |
| Gestures.SubitemCreate | src/app/components/DraggableItem.tsx:327-340 | the sub-word "Criar" asks for `createItem` of a new leaf under this word when a name was typed, and clears the name |
| Gestures.SubitemEffect | src/app/components/DraggableItem.tsx:327-340 | the sub-word "Criar" acts exactly when a name was typed; then it clears the name and adds exactly one word, the new leaf, as the parent's last entry |

## Left out

- Rendering, styling, icons, the expand/collapse state, the view modes and the sidebar and header components are not modelled; they do not change the forest.
- react-dnd is not modelled. The monitor's offsets are parameters of `Gestures.OnDrop`, with `None` for a missing offset, and whether a target accepted the drop is a flag of `Gestures.OnDragEnd`.
- The state updates that React defers (`setItems` updaters, `setTimeout`, the `useEffect` that reacts to a click) are not modelled. Stale closures, where `orderItem` and `switchItem` read `items` from an earlier render, are also left out. Each edit acts on the current forest at once.
- `uuidv4()` and `Date.now()` are parameters (`newId`, `now`). Their freshness is a precondition where a lemma needs it.
- The Blob, object URL and anchor click of `download` are not modelled. So are the JSON text and `console.log`.
- `Page.Home.Download`: formats the live forest rather than the `json` state, which `updateData` sets in the same event and React updates only later.
- The `useEffect` on `currentHierarchy` is not modelled. It copies the saved forest into the editor (page.tsx:81-87). The JSON round trips that copy forests are value copies here.
- The rename through the text field is not modelled. It assigns `item.name` on the shared object and re-renders (DraggableItem.tsx:212-215). The model has no aliasing, and the rename changes no structure.
- The "Mover" button and its blur timer are not modelled as such (DraggableItem.tsx:273-283). The word they choose is the `pending` parameter of `Gestures.OnClick`.
- Forests are values. The in-place mutation of shared word objects (`push`, `splice`) becomes a rebuilt forest. Where `Unique` holds, this is equivalent to editing the first word with the given id. Aliasing between shared objects is not modelled.
- Hierarchies.Editor.MoveItem: requires the dragged word and the target to be in the forest. The source is only ever called with words of the rendered forest.
- Hierarchies.WriteBack: a parent without an id leaves the forest unchanged. The source writes through the object instead. In a unique forest every parent has an id (`ParentHasId`), so the case does not arise.
- Hierarchies.IsDescendant: compares by id. The source's `includes` compares objects. The two agree in a unique forest.
- Gestures.DropEffect: the move case is stated only when no guard of `moveItem` fires. When one fires the forest is unchanged, which `Hierarchies.Moved` states.
- The threshold of 50 px, the offsets and the indices are unbounded integers. Floating-point pixel coordinates are not modelled.
