/** The expand-state store of the tree component (`useExpandState`): a record
    from item id to flag, read through `getIsExpanded`, written by
    `setIsExpanded` and by the effect that expands every ancestor of the
    selected item when the selection or the root changes. */
module ExpandState {

  import opened Wrappers
  import opened Seqs
  import opened Tree

  /** The expand record. A missing entry reads as collapsed. */
  type Record = map<string, bool>

  /** `record[id] === true`. */
  predicate IsTrue(record: Record, id: string) {
    id in record && record[id]
  }

  /** `getIsExpanded`: the root always reports expanded; any other item
      reports expanded when it has children and its entry is `true`. */
  function IsExpanded(record: Record, rootId: string, item: Item): bool {
    item.id == rootId || (|GetItemChildren(item)| > 0 && IsTrue(record, item.id))
  }

  /** `a` and `b` agree on `id`: both lack it, or both map it to one value. */
  ghost predicate SameEntry(a: Record, b: Record, id: string) {
    (id in a <==> id in b) && (id in a ==> a[id] == b[id])
  }

  /** The root reports expanded whatever the record holds. */
  lemma RootAlwaysExpanded(record: Record, root: Item)
    ensures IsExpanded(record, root.id, root)
  {
  }

  /** An item without children other than the root never reports expanded,
      even when its entry is `true`. */
  lemma LeafNeverExpanded(record: Record, rootId: string, item: Item)
    requires item.id != rootId && GetItemChildren(item) == []
    ensures !IsExpanded(record, rootId, item)
  {
  }

  /** What `setIsExpanded(item, b)` does to the answers of `getIsExpanded`:
      items with another id answer as before; an item with `item`'s id
      answers `b`, unless it is the root or has no children. */
  lemma SetIsExpandedEffect(record: Record, rootId: string, item: Item, b: bool, other: Item)
    ensures other.id != item.id ==> SameEntry(record, record[item.id := b], other.id)
    ensures other.id != item.id ==>
              IsExpanded(record[item.id := b], rootId, other) == IsExpanded(record, rootId, other)
    ensures other.id == item.id ==>
              IsExpanded(record[item.id := b], rootId, other) ==
              (other.id == rootId || (|other.children| > 0 && b))
  {
  }

  /** The ids on the path to `selected`, without `selected` itself
      (`getItemPath(...).map(...)` followed by `pop`). */
  function AncestorIds(root: Item, selected: string): (r: seq<string>)
    ensures var p := GetItemPath(root, selected);
            |r| == (if p == [] then 0 else |p| - 1) &&
            forall k :: 0 <= k < |r| ==> r[k] == p[k].id
  {
    var ids := PathIds(GetItemPath(root, selected));
    if ids == [] then ids else ids[..|ids| - 1]
  }

  /** The selected item is never among its own ancestors: the path search
      stops at the first item carrying the selected id. */
  lemma SelectedNotAmongAncestors(root: Item, selected: string)
    ensures selected !in AncestorIds(root, selected)
  {
    var p := GetItemPath(root, selected);
    var ancestors := AncestorIds(root, selected);
    PathStopsAtMatch(root, selected);
    forall k | 0 <= k < |ancestors| ensures ancestors[k] != selected {
      assert ancestors[k] == p[k].id;
    }
  }

  /** `path.filter((id) => record[id] !== true)`. */
  function ToExpand(record: Record, ids: seq<string>): (r: seq<string>)
    ensures forall id :: id in r <==> id in ids && !IsTrue(record, id)
  {
    if ids == [] then []
    else if IsTrue(record, ids[0]) then ToExpand(record, ids[1..])
    else [ids[0]] + ToExpand(record, ids[1..])
  }

  /** Nothing is left to expand exactly when every id is already `true`. */
  lemma NothingToExpand(record: Record, ids: seq<string>)
    ensures ToExpand(record, ids) == [] <==> forall id :: id in ids ==> IsTrue(record, id)
  {
    var r := ToExpand(record, ids);
    if r != [] {
      assert r[0] in r;
    }
  }

  /** The update inside the auto-expand effect: a copy of the record with
      every id of `ids` set to `true` (`newRecord[id] = true`). */
  method MarkExpanded(record: Record, ids: seq<string>) returns (r: Record)
    ensures forall id :: id in ids ==> IsTrue(r, id)
    ensures forall id :: id !in ids ==> SameEntry(record, r, id)
  {
    r := record;
    for k := 0 to |ids|
      invariant forall id :: id in ids[..k] ==> IsTrue(r, id)
      invariant forall id :: id !in ids[..k] ==> SameEntry(record, r, id)
    {
      assert ids[..k + 1] == ids[..k] + [ids[k]];
      r := r[ids[k] := true];
    }
    assert ids[..|ids|] == ids;
  }

  /** After the update, a second run of the effect finds nothing to expand:
      forcing the ancestors open is idempotent. */
  lemma {:induction false} ExpandIsIdempotent(record: Record, ids: seq<string>, marked: Record)
    requires forall id :: id in ToExpand(record, ids) ==> IsTrue(marked, id)
    requires forall id :: id !in ToExpand(record, ids) ==> SameEntry(record, marked, id)
    ensures ToExpand(marked, ids) == []
  {
    forall id | id in ids ensures IsTrue(marked, id) {
      if id !in ToExpand(record, ids) {
        assert SameEntry(record, marked, id);
      }
    }
    NothingToExpand(marked, ids);
  }

  /** The state of one mounted `useExpandState`. */
  class ExpandStore {
    /** `record`, the state the hook keeps with `useState`. */
    var record: Record
    /** `prevSelectedItemId.current` and `prevRoot.current`. */
    var prevSelectedItemId: Option<string>
    var prevRoot: TreeRoot
    /** How many times `setRecord` has been called; each call re-renders. */
    var writes: nat

    /** Mounting: an empty record, the refs holding the first props. */
    constructor (root: TreeRoot, selectedItemId: Option<string>)
      ensures record == map[] && writes == 0
      ensures prevSelectedItemId == selectedItemId && prevRoot == root
    {
      record := map[];
      prevSelectedItemId := selectedItemId;
      prevRoot := root;
      writes := 0;
    }

    /** `setIsExpanded(item, expanded)`: replaces the entry for `item.id`
        and no other. */
    method SetIsExpanded(item: Item, expanded: bool)
      modifies this
      ensures record == old(record)[item.id := expanded]
      ensures forall id :: id != item.id ==> SameEntry(old(record), record, id)
      ensures writes == old(writes) + 1
      ensures prevSelectedItemId == old(prevSelectedItemId) && prevRoot == old(prevRoot)
    {
      record := record[item.id := expanded];
      writes := writes + 1;
    }

    /** The auto-expand effect, run after a render with the current props.
        It writes nothing when neither the selection nor the root object
        changed, when nothing is selected, or when every ancestor is already
        `true`; otherwise it sets every ancestor of the selected item to
        `true` and keeps all other entries. */
    method SyncSelection(root: TreeRoot, selectedItemId: Option<string>)
      modifies this
      ensures prevSelectedItemId == selectedItemId && prevRoot == root
      ensures (selectedItemId == old(prevSelectedItemId) && root == old(prevRoot)) ==>
                record == old(record) && writes == old(writes)
      ensures selectedItemId.None? ==> record == old(record) && writes == old(writes)
      ensures selectedItemId.Some? && !(selectedItemId == old(prevSelectedItemId) && root == old(prevRoot)) ==>
                var ancestors := AncestorIds(root.item, selectedItemId.value);
                && (forall id :: id in ancestors ==> IsTrue(record, id))
                && (forall id :: id !in ancestors ==> SameEntry(old(record), record, id))
                && SameEntry(old(record), record, selectedItemId.value)
                && ((forall id :: id in ancestors ==> IsTrue(old(record), id)) ==>
                      record == old(record) && writes == old(writes))
                && writes == old(writes) + (if forall id :: id in ancestors ==> IsTrue(old(record), id) then 0 else 1)
    {
      if selectedItemId == prevSelectedItemId && prevRoot == root {
        return;
      }
      prevSelectedItemId := selectedItemId;
      prevRoot := root;
      if selectedItemId.None? {
        return;
      }
      var path := AncestorIds(root.item, selectedItemId.value);
      SelectedNotAmongAncestors(root.item, selectedItemId.value);
      var toExpand := ToExpand(record, path);
      NothingToExpand(record, path);
      if toExpand == [] {
        return;
      }
      record := MarkExpanded(record, toExpand);
      writes := writes + 1;
    }
  }

  /** The tree `r -> [a, b -> [c]]`: selecting `c` with an empty record
      writes `true` for `r` and `b`. The root's entry is written even though
      the root reads as expanded anyway; `c` itself is not touched. */
  lemma SelectLeafScenario()
    ensures var c := Item("c", []);
            var tree := Item("r", [Item("a", []), Item("b", [c])]);
            AncestorIds(tree, "c") == ["r", "b"] &&
            ToExpand(map[], AncestorIds(tree, "c")) == ["r", "b"]
  {
    var c := Item("c", []);
    var b := Item("b", [c]);
    var tree := Item("r", [Item("a", []), b]);
    assert GetItemPath(c, "c") == [c];
    assert GetItemPath(b, "c") == [b, c];
    assert GetItemPath(Item("a", []), "c") == [];
    assert ChildPath(tree, "c", 1) == [tree, b, c];
    assert ChildPath(tree, "c", 0) == [tree, b, c];
    assert GetItemPath(tree, "c") == [tree, b, c];
    var empty: Record := map[];
    assert ["r", "b"][1..] == ["b"] && ["b"][1..] == [];
    assert ToExpand(empty, ["b"]) == ["b"];
  }
}
