# Tree component core, modelled in Dafny

This project models the state logic of webstudio's design-system `Tree`
component (`packages/design-system/src/components/tree/tree.tsx`). It does
not model the rendering.

The model covers four parts of the component:

- **Expand state** (`useExpandState`). A record maps item ids to flags.
  - `getIsExpanded` reads it. The root always reports expanded. Any other item reports expanded only when it has children and its entry is `true`.
  - `setIsExpanded` replaces a single entry.
  - An effect forces every ancestor of the selected item open when the selection or the root object changes.
- **Drop-target resolution** (`swapDropTarget`). Given the item under the pointer, the component picks the item that will take the dragged item as a child. It walks the path from the hovered item towards the root. It skips the dragged item and everything inside it. It falls back to the root when no item qualifies.
- **Drag lifecycle.**
  - `elementToData` decides which elements may start a drag and which elements are drop targets.
  - `onStart` and `onEnd` change the drag state. `onEnd` emits the single `onDragEnd` commit.
  - `onHold` expands an item once the pointer has rested on it.
- **Keyboard navigation** (`useKeyboardNavigation`).
  - `flatCurrentlyExpandedTree` is the visible items in depth-first order.
  - The hotkey handler maps up, down, right, left, space, backspace, delete and esc to actions.

The host application supplies the hierarchy accessors (`getItemPath`, `findItemById`, `getItemChildren`). The model gives them one concrete definition over `Tree.Item`:

- the path search visits children from left to right;
- a missing id gives the empty path;
- `findItemById` returns the last item of the path.

The component tells root objects apart by identity. The model does the same with the class `Tree.TreeRoot`, compared by reference.

The expand store keeps a counter, `writes`, of `setRecord` calls. Each call is a re-render, so the counter makes the "writes nothing" promises observable.

Where the component's intended behaviour and its code disagree, the model follows the code:

- **Auto-expand writes the root's entry.** The effect collects the ancestors of the selected item whose entry is not already `true`, the root included. It sets them all to `true` in a single `setRecord` call, and writes nothing when there are none. The root reads as expanded anyway, but its entry is written like any other. `ExpandState.SelectLeafScenario` shows that selecting `c` in `r -> [a, b -> [c]]` writes both `r` and `b`.
- **Right does not check for children.** The right key calls `setIsExpanded(item, true)` whenever the item reports collapsed. A leaf other than the root always reports collapsed, so right writes its entry on every press, with no visible effect. A root without children reports expanded, so right does nothing there.
- **Down from an unlisted item.** When the selected item is not in the flattened order, `indexOf` gives -1. Down then focuses the first listed item, which is the root.
- **`onHold` condition.** The condition is `children.length > 0 || getIsExpanded(item) === false`. For a leaf that is not the root, `getIsExpanded` is false, so the condition holds there too. It fails only for a root without children. The model states this as written (`DragLifecycle.HoldExpandsAllButChildlessRoot`).

The drop areas are `top`, `bottom`, `center-left` and `center-right`. The drag-and-drop primitive that produces them is not part of this model.

## Model

| member | source | states |
|---|---|---|
| Tree.GetItemPath | packages/design-system/src/components/tree/tree.tsx:444 | the path is empty exactly when no item has the id; otherwise it starts at the root, ends at the item with that id, and each step goes from an item to one of its children |
| Tree.ChildPath | packages/design-system/src/components/tree/tree.tsx:444 | the path through the first child subtree that holds the id: empty exactly when none of those subtrees holds it, otherwise at least two items long and linked parent to child |
| Tree.TreeRoot.constructor | packages/design-system/src/components/tree/tree.tsx:18 | a root object holds the item tree it was made from; as an object it is compared by identity, as `prevRoot.current === root` does |
| Tree.PathStopsAtMatch | packages/design-system/src/components/tree/tree.tsx:444 | the path search stops at the first item carrying the id: no item above the last one on the path has it |
| Tree.ChildPathStopsAtMatch | packages/design-system/src/components/tree/tree.tsx:444 | the same for the search through the children, below the parent itself |
| Tree.GetItemChildren | packages/design-system/src/components/tree/tree.tsx:445 | `getItemChildren`: an item's ordered children |
| Tree.FindItemById | packages/design-system/src/components/tree/tree.tsx:299 | gives an item exactly when the tree holds the id, and that item carries the id |
| Tree.PathIds | packages/design-system/src/components/tree/tree.tsx:465-467 | the ids of a path, in path order and of the same length |
| Tree.IdsFromMember | packages/design-system/src/components/tree/tree.tsx:444 | an id lies below some children exactly when one of those children's subtrees holds it |
| Tree.ChildPathAt | packages/design-system/src/components/tree/tree.tsx:444 | the path search skips children whose subtrees lack the id and runs through the first child whose subtree holds it |
| Tree.PathThroughChild | packages/design-system/src/components/tree/tree.tsx:444 | with unique ids, the path to an item is the root followed by the path inside the child whose subtree holds it |
| Tree.PathPrefix | packages/design-system/src/components/tree/tree.tsx:465-469 | with unique ids, every prefix of the path to an item is the path to the prefix's last item, so its ancestors are exactly the items above it |
| Tree.PathIdsDistinct | packages/design-system/src/components/tree/tree.tsx:465-469 | with unique ids, no id repeats along a path |
| Tree.PathThrough | packages/design-system/src/components/tree/tree.tsx:126 | the path to any descendant of an item runs through that item's own path |
| Tree.OnPathToDescendant | packages/design-system/src/components/tree/tree.tsx:133-139 | an item lies on the path to each of its descendants |
| Seqs.Reverse | packages/design-system/src/components/tree/tree.tsx:127 | the reversed sequence has the same length and holds the original's items mirrored |
| Seqs.ReverseDrop | packages/design-system/src/components/tree/tree.tsx:127-131 | dropping the first n items of the reversed sequence equals reversing the sequence without its last n items |
| Seqs.IndexOf | packages/design-system/src/components/tree/tree.tsx:341 | `indexOf`: the first position of the value, or -1 exactly when the value is absent |
| Seqs.FirstIndex | packages/design-system/src/components/tree/tree.tsx:141 | the first position whose item satisfies the predicate, or -1 when none does |
| Seqs.Find | packages/design-system/src/components/tree/tree.tsx:141 | `find`: none exactly when no item satisfies the predicate; otherwise the first item that does |
| ExpandState.IsExpanded | packages/design-system/src/components/tree/tree.tsx:483-495 | `getIsExpanded`: true for the root, otherwise true exactly when the item has children and its entry is true; its properties are the rows below |
| ExpandState.RootAlwaysExpanded | packages/design-system/src/components/tree/tree.tsx:485-488 | the root reports expanded whatever the record holds |
| ExpandState.LeafNeverExpanded | packages/design-system/src/components/tree/tree.tsx:490-492 | an item other than the root without children never reports expanded, even when its entry is true |
| ExpandState.SetIsExpandedEffect | packages/design-system/src/components/tree/tree.tsx:497-499 | after setting an entry, every other id has its old entry and answers as before; the item itself answers the new flag unless it is the root or has no children |
| ExpandState.AncestorIds | packages/design-system/src/components/tree/tree.tsx:465-469 | the ids of the path to the selected item without its last entry, one shorter than the path, in path order |
| ExpandState.SelectedNotAmongAncestors | packages/design-system/src/components/tree/tree.tsx:468-469 | the selected item is not among the ids to expand, as the path search stops at the first item carrying its id |
| ExpandState.ToExpand | packages/design-system/src/components/tree/tree.tsx:470 | an id is kept exactly when it is on the path and its entry is not true |
| ExpandState.NothingToExpand | packages/design-system/src/components/tree/tree.tsx:470-473 | nothing is left to expand exactly when every ancestor's entry is already true |
| ExpandState.MarkExpanded | packages/design-system/src/components/tree/tree.tsx:474-480 | the copied record has every given id set to true and every other entry unchanged |
| ExpandState.ExpandIsIdempotent | packages/design-system/src/components/tree/tree.tsx:470-480 | after the update, running the effect again finds nothing to expand |
| ExpandState.ExpandStore.constructor | packages/design-system/src/components/tree/tree.tsx:448-452 | mounting starts with an empty record and with the refs holding the first props |
| ExpandState.ExpandStore.SetIsExpanded | packages/design-system/src/components/tree/tree.tsx:497-499 | replaces the item's entry, leaves every other entry and both refs alone, and makes one write |
| ExpandState.ExpandStore.SyncSelection | packages/design-system/src/components/tree/tree.tsx:453-481 | updates the refs to the new props; writes nothing when neither the selection nor the root object changed, when nothing is selected, or when every ancestor is already true; otherwise every ancestor becomes true, every other entry is unchanged, the selected item's own entry included, and it makes exactly one write when some ancestor was not already true and none otherwise |
| ExpandState.SelectLeafScenario | packages/design-system/src/components/tree/tree.tsx:465-480 | in `r -> [a, b -> [c]]` with an empty record, selecting `c` expands `r` and `b` |
| DropResolver.IndexOfId | packages/design-system/src/components/tree/tree.tsx:134-136 | `findIndex` by id: the first position holding the id, or -1 when no position does |
| DropResolver.LastIndexOfId | packages/design-system/src/components/tree/tree.tsx:134-136 | the last position holding the id, or -1 when no position does |
| DropResolver.IndexOfIdReverse | packages/design-system/src/components/tree/tree.tsx:127-136 | the first position of an id in the reversed path mirrors its last position in the path |
| DropResolver.ShiftIsHovered | packages/design-system/src/components/tree/tree.tsx:127-131 | reversing the path and shifting off its first entry for top and bottom leaves the hovered part of the path, reversed |
| DropResolver.SpliceIsCut | packages/design-system/src/components/tree/tree.tsx:134-139 | splicing the reversed path through the first occurrence of the dragged item is the same as cutting the path just above its deepest occurrence and reversing |
| DropResolver.ShiftSpliceIsCandidates | packages/design-system/src/components/tree/tree.tsx:126-139 | reversing, shifting off the hovered item for top and bottom, and splicing through the dragged item leaves exactly the candidate list |
| DropResolver.CandidatePosition | packages/design-system/src/components/tree/tree.tsx:129-139 | every candidate sits in the hovered part of the path, above the deepest occurrence of the dragged item |
| DropResolver.NoDragAbove | packages/design-system/src/components/tree/tree.tsx:133-139 | on a path with distinct ids, nothing at or above a candidate is the dragged item |
| DropResolver.PrefixAvoids | packages/design-system/src/components/tree/tree.tsx:133-139 | when no position of a prefix holds the dragged id, no item of that prefix carries it |
| DropResolver.CandidateAncestors | packages/design-system/src/components/tree/tree.tsx:133-139 | no item on the path to a candidate is the dragged item |
| DropResolver.AncestorsOutsideDragged | packages/design-system/src/components/tree/tree.tsx:133-139 | with unique ids, an item none of whose ancestors is the dragged item lies outside the dragged item's subtree |
| DropResolver.CandidateOnPath | packages/design-system/src/components/tree/tree.tsx:126-141 | for any tree, every candidate is an item of the hovered part of the path, so it is on the path and, for top and bottom, is not the hovered item |
| DropResolver.CandidatesAreSafe | packages/design-system/src/components/tree/tree.tsx:126-141 | every candidate is on the hovered path, is not the hovered item for top and bottom, and is neither the dragged item nor inside its subtree |
| DropResolver.ReverseInPlace | packages/design-system/src/components/tree/tree.tsx:127 | the array afterwards holds its old contents reversed |
| DropResolver.ShiftAndSplice | packages/design-system/src/components/tree/tree.tsx:126-139 | the array steps between `getItemPath` and `find` (copy, reverse, shift, splice) leave exactly the candidates: the hovered part of the path, nearest first, cut above the dragged item |
| DropResolver.SwapDropTarget | packages/design-system/src/components/tree/tree.tsx:117-154 | falls back to the root without a dragged item or a target; keeps a target that is the root; otherwise gives the first accepting candidate when it has an element on screen, and the root fallback when not; an accepted item accepts children, has an element, lies on the hovered path and is not the hovered item for top and bottom; with unique ids it is also neither the dragged item nor inside its subtree |
| DropResolver.HoverBelowLeafScenario | packages/design-system/src/components/tree/tree.tsx:126-141 | in `r -> [a, b -> [c]]`, dragging `a` over the bottom edge of `c` where `b` accepts children resolves to `b` |
| KeyboardNavigation.Traverse | packages/design-system/src/components/tree/tree.tsx:315-320 | appends the item's flattening to what was already pushed |
| KeyboardNavigation.FlattenExpanded | packages/design-system/src/components/tree/tree.tsx:313-323 | the result is the depth-first flattening of the root, listing an item's children only when it reports expanded |
| KeyboardNavigation.FlatFromMember | packages/design-system/src/components/tree/tree.tsx:318 | an id is listed for some children exactly when it is listed in one of those children's flattenings |
| KeyboardNavigation.FlatIds | packages/design-system/src/components/tree/tree.tsx:313-323 | every listed id is an id of the tree |
| KeyboardNavigation.FlatFromIds | packages/design-system/src/components/tree/tree.tsx:318 | every id listed for some children lies in those children's subtrees |
| KeyboardNavigation.FlatOnlyVisible | packages/design-system/src/components/tree/tree.tsx:313-323 | with unique ids, every listed item is visible: every item above it reports expanded |
| KeyboardNavigation.FlatAllVisible | packages/design-system/src/components/tree/tree.tsx:313-323 | with unique ids, every visible item is listed |
| KeyboardNavigation.FlatIsVisible | packages/design-system/src/components/tree/tree.tsx:313-323 | with unique ids, an item is listed exactly when it is visible |
| KeyboardNavigation.AncestorsTrueMakeVisible | packages/design-system/src/components/tree/tree.tsx:450-480 | once every ancestor of an item in the tree has its entry true, as the auto-expand effect leaves it, the item is visible |
| KeyboardNavigation.AutoExpandRevealsSelection | packages/design-system/src/components/tree/tree.tsx:450-480 | with unique ids, the auto-expanded selected item is then listed in the flattened order |
| KeyboardNavigation.DistinctConcat | packages/design-system/src/components/tree/tree.tsx:318 | joining two repeat-free sequences with no common item gives a repeat-free sequence |
| KeyboardNavigation.FlatDistinct | packages/design-system/src/components/tree/tree.tsx:313-323 | with unique ids, no id is listed twice |
| KeyboardNavigation.FlatFromDistinct | packages/design-system/src/components/tree/tree.tsx:318 | with unique ids, the children's flattenings together list no id twice |
| KeyboardNavigation.SelectedItem | packages/design-system/src/components/tree/tree.tsx:306-311 | gives an item exactly when an id is selected and the tree holds it, and that item carries the id |
| KeyboardNavigation.KeyActionFor | packages/design-system/src/components/tree/tree.tsx:327-360 | with nothing selected, no key does anything; only right, left and space set the selected item's flag, and space always does; only up and down move the focus, to a listed item; backspace and delete, and only they, ask to delete the selected item; esc, and only it, cancels the drag |
| KeyboardNavigation.ArrowsStepByOne | packages/design-system/src/components/tree/tree.tsx:340-353 | up and down only move the focus; up moves exactly when the position is above 0, down exactly when it is below the last one; the focus moves to the position exactly one before or after, so there is no wrap-around |
| KeyboardNavigation.ExpandKeysEffect | packages/design-system/src/components/tree/tree.tsx:331-339 | right, left and space only set the expand flag; after right the item reports expanded when it is the root or has children; after left only the root reports expanded; space flips an item that has children and is not the root |
| KeyboardNavigation.HandleKey | packages/design-system/src/components/tree/tree.tsx:325-368 | the action is the handler's answer for the selected item, the current flattening and the record; only a set-expanded action changes the record, one entry and one write |
| DragLifecycle.DragElementToData | packages/design-system/src/components/tree/tree.tsx:171-192 | a drag starts exactly when the element carries an id that is not the root's, the tree holds that id, and the item may leave its parent; the data is that item |
| DragLifecycle.DropElementToData | packages/design-system/src/components/tree/tree.tsx:111-115 | an element names a drop target exactly when its id is present, not empty, and held by the tree; the data carries that id |
| DragLifecycle.DragEndCalls | packages/design-system/src/components/tree/tree.tsx:207-215 | at most one `onDragEnd` call, made exactly when the drag was not cancelled and both a shifted target and a dragged item exist, carrying the dragged item's id and the shifted target's item and position |
| DragLifecycle.DragSession.constructor | packages/design-system/src/components/tree/tree.tsx:65-66 | a new tree is idle: no dragged item, no drop target, no shift, auto-scroll off and no calls made; it records whether `onSelect` was given |
| DragLifecycle.DragSession.OnStart | packages/design-system/src/components/tree/tree.tsx:193-198 | calls `onSelect` with the item when the prop was given and not otherwise, records the item as dragged and turns auto-scroll on, leaving the rest alone |
| DragLifecycle.DragSession.StartDrag | packages/design-system/src/components/tree/tree.tsx:171-198 | starts exactly when the element is eligible, then records the item found by id (never the root) and selects it when `onSelect` was given; an ineligible element changes nothing |
| DragLifecycle.DragSession.OnDropTargetChange | packages/design-system/src/components/tree/tree.tsx:156-159 | replaces the drop target and nothing else |
| DragLifecycle.DragSession.OnShiftChange | packages/design-system/src/components/tree/tree.tsx:203-205 | replaces the horizontal shift and nothing else |
| DragLifecycle.DragSession.OnEnd | packages/design-system/src/components/tree/tree.tsx:206-223 | appends the commit for the drag as it stood, then clears the dragged item, the drop target and the shift and turns auto-scroll off, whether or not the drag was cancelled |
| DragLifecycle.GestureCommitsAtMostOnce | packages/design-system/src/components/tree/tree.tsx:171-223 | a start followed by two end calls reaches the host at most once, exactly when the drag started, was not cancelled and had a shifted target, and for the dragged item |
| DragLifecycle.HoldShouldExpand | packages/design-system/src/components/tree/tree.tsx:97-100 | the hold condition: the item has children or does not report expanded |
| DragLifecycle.HoldExpandsAllButChildlessRoot | packages/design-system/src/components/tree/tree.tsx:97-100 | the hold condition fails only for a root without children |
| DragLifecycle.OnHold | packages/design-system/src/components/tree/tree.tsx:96-103 | when the condition holds, sets the hovered item's entry to true with one write, and otherwise writes nothing; afterwards the item reports expanded exactly when it is the root or has children |

## Left out

- Rendering (`TreeNode`, the placement indicator, the portal), the DOM and focus handling are not modelled. This covers `setFocus`, focus restoration after a root change, `handleClick` and `handleBlur` (tree.tsx:370-434). A focus move is returned as a `MoveFocus` action instead.
- The drag-and-drop primitives (`useDrag`, `useDrop`, `useHold`, `useAutoScroll`, `useDragCursor`) are not modelled. Their pointer geometry, the 600 ms hold timer and the `handleStart`, `handleMove`, `handleEnd` and `reset` calls are outside the model. Auto-scroll appears only as an on/off flag.
- The horizontal-shift resolver (`useHorizontalShift`) is not part of this model. Its result reaches `onEnd` as an input, `Option<ShiftedDropTarget>`. The placement-indicator geometry it carries is dropped.
- The hotkeys library is not modelled. A key press arrives as a `Key` value. The esc key's `cancelCurrentDrag` becomes the `CancelDrag` action, and `preventDefault` is folded into `MoveFocus`.
- The element lookups are parameters. `getDropTargetElement` is `hasElement`. The closest `data-drag-item-id` and the `data-drop-target-id` attributes are optional strings.
- `apps/designer/app/designer/features/breakpoints/use-subscribe-breakpoints.ts` is not part of this model.
- React's scheduling is not modelled. Render batching, memoisation, and functional `setRecord` updates are treated as applying to the current record at once.
- Host callbacks (`onSelect`, `onDragEnd`, `onDelete`) are modelled as logs or returned actions. Their effects on the host's tree are outside the model.
- DropResolver.SwapDropTarget: promises that the result lies outside the dragged subtree only when the tree's ids are unique. The code cuts the path at an id, so with repeated ids it guarantees no more than that.
