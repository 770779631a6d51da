/** Keyboard navigation of the tree component (`useKeyboardNavigation`): the
    flattened order of the visible items, and the hotkey handler that maps
    arrows, space, delete and escape onto the expand record, the focus and
    the host's callbacks. */
module KeyboardNavigation {

  import opened Wrappers
  import opened Seqs
  import opened Tree
  import opened ExpandState

  /** The visible items below and including `t`, depth first: an item's
      children follow it exactly when it reports expanded. */
  function Flat(t: Item, record: Record, rootId: string): seq<string>
    decreases t, 1, 0
  {
    [t.id] + (if IsExpanded(record, rootId, t) then FlatFrom(t, 0, record, rootId) else [])
  }

  /** The flattened subtrees of `t.children[i..]`, one after another. */
  function FlatFrom(t: Item, i: nat, record: Record, rootId: string): seq<string>
    requires i <= |t.children|
    decreases t, 0, |t.children| - i
  {
    if i == |t.children| then []
    else Flat(t.children[i], record, rootId) + FlatFrom(t, i + 1, record, rootId)
  }

  /** `traverse` inside `flatCurrentlyExpandedTree`: pushes the id of
      `item`, then visits its children in order when it is expanded. */
  method Traverse(item: Item, record: Record, rootId: string, result: seq<string>)
    returns (r: seq<string>)
    ensures r == result + Flat(item, record, rootId)
    decreases item
  {
    r := result + [item.id];
    if IsExpanded(record, rootId, item) {
      var children := GetItemChildren(item);
      for i := 0 to |children|
        invariant r + FlatFrom(item, i, record, rootId) == result + Flat(item, record, rootId)
      {
        var before := r;
        r := Traverse(children[i], record, rootId, r);
        assert r + FlatFrom(item, i + 1, record, rootId) == before + FlatFrom(item, i, record, rootId);
      }
    }
  }

  /** `flatCurrentlyExpandedTree`. */
  method FlattenExpanded(root: Item, record: Record) returns (flat: seq<string>)
    ensures flat == Flat(root, record, root.id)
  {
    flat := Traverse(root, record, root.id, []);
  }

  /** An id is in `FlatFrom(t, i, ...)` exactly when it is in the flattening
      of one of those children. */
  lemma {:induction false} FlatFromMember(t: Item, i: nat, record: Record, rootId: string, x: string)
    requires i <= |t.children|
    ensures x in FlatFrom(t, i, record, rootId) <==>
            exists j :: i <= j < |t.children| && x in Flat(t.children[j], record, rootId)
    decreases |t.children| - i
  {
    if i < |t.children| {
      FlatFromMember(t, i + 1, record, rootId, x);
      if x in Flat(t.children[i], record, rootId) {
        assert i <= i < |t.children| && x in Flat(t.children[i], record, rootId);
      }
    }
  }

  /** Only ids of the tree are listed. */
  lemma {:induction false} FlatIds(t: Item, record: Record, rootId: string)
    ensures forall x :: x in Flat(t, record, rootId) ==> x in IdSet(t)
    decreases t, 1, 0
  {
    if IsExpanded(record, rootId, t) {
      FlatFromIds(t, 0, record, rootId);
    }
  }

  lemma {:induction false} FlatFromIds(t: Item, i: nat, record: Record, rootId: string)
    requires i <= |t.children|
    ensures forall x :: x in FlatFrom(t, i, record, rootId) ==> x in IdsFrom(t, i)
    decreases t, 0, |t.children| - i
  {
    if i < |t.children| {
      FlatIds(t.children[i], record, rootId);
      FlatFromIds(t, i + 1, record, rootId);
    }
  }

  /** `x` is shown: the tree holds it and every item above it on its path
      reports expanded. */
  ghost predicate Visible(t: Item, x: string, record: Record, rootId: string) {
    var p := GetItemPath(t, x);
    p != [] && forall k :: 0 <= k < |p| - 1 ==> IsExpanded(record, rootId, p[k])
  }

  /** Every listed item is visible. */
  lemma {:induction false} FlatOnlyVisible(t: Item, x: string, record: Record, rootId: string)
    requires Unique(t)
    requires x in Flat(t, record, rootId)
    ensures Visible(t, x, record, rootId)
    decreases t
  {
    if x != t.id {
      assert IsExpanded(record, rootId, t) && x in FlatFrom(t, 0, record, rootId);
      FlatFromMember(t, 0, record, rootId, x);
      var j :| 0 <= j < |t.children| && x in Flat(t.children[j], record, rootId);
      FlatIds(t.children[j], record, rootId);
      FlatOnlyVisible(t.children[j], x, record, rootId);
      PathThroughChild(t, x, j);
      var q := GetItemPath(t.children[j], x);
      var p := GetItemPath(t, x);
      assert p == [t] + q;
      forall k | 0 <= k < |p| - 1 ensures IsExpanded(record, rootId, p[k]) {
        if k > 0 {
          assert p[k] == q[k - 1];
        }
      }
    }
  }

  /** Every visible item is listed. */
  lemma {:induction false} FlatAllVisible(t: Item, x: string, record: Record, rootId: string)
    requires Unique(t)
    requires Visible(t, x, record, rootId)
    ensures x in Flat(t, record, rootId)
    decreases t
  {
    if x != t.id {
      var j := ChildHolding(t, x);
      PathThroughChild(t, x, j);
      var q := GetItemPath(t.children[j], x);
      var p := GetItemPath(t, x);
      assert p == [t] + q;
      assert IsExpanded(record, rootId, p[0]);
      forall k | 0 <= k < |q| - 1 ensures IsExpanded(record, rootId, q[k]) {
        assert q[k] == p[k + 1];
      }
      FlatAllVisible(t.children[j], x, record, rootId);
      FlatFromMember(t, 0, record, rootId, x);
    }
  }

  /** The flattened order lists exactly the visible items: an item's
      children are listed when, and only when, the item and all items above
      it report expanded. */
  lemma FlatIsVisible(t: Item, x: string, record: Record, rootId: string)
    requires Unique(t)
    ensures x in Flat(t, record, rootId) <==> Visible(t, x, record, rootId)
  {
    if x in Flat(t, record, rootId) {
      FlatOnlyVisible(t, x, record, rootId);
    }
    if Visible(t, x, record, rootId) {
      FlatAllVisible(t, x, record, rootId);
    }
  }
  /** Once every ancestor of `s` has its entry set to `true`, which is what
      the auto-expand effect leaves in the record, `s` is visible: each item
      above it has a child on the path and so reports expanded. */
  lemma AncestorsTrueMakeVisible(root: Item, s: string, record: Record)
    requires s in IdSet(root)
    requires forall id :: id in AncestorIds(root, s) ==> IsTrue(record, id)
    ensures Visible(root, s, record, root.id)
  {
    var p := GetItemPath(root, s);
    var ancestors := AncestorIds(root, s);
    forall k | 0 <= k < |p| - 1 ensures IsExpanded(record, root.id, p[k]) {
      assert ancestors[k] == p[k].id;
      assert p[k + 1] in p[k].children;
    }
  }

  /** In a tree with unique ids the selected item is then listed in the
      flattened order, so the arrow keys reach it. */
  lemma AutoExpandRevealsSelection(root: Item, s: string, record: Record)
    requires Unique(root) && s in IdSet(root)
    requires forall id :: id in AncestorIds(root, s) ==> IsTrue(record, id)
    ensures s in Flat(root, record, root.id)
  {
    AncestorsTrueMakeVisible(root, s, record);
    FlatIsVisible(root, s, record, root.id);
  }


  /** Concatenating sequences without common values keeps values distinct. */
  lemma DistinctConcat<T>(a: seq<T>, b: seq<T>)
    requires Distinct(a) && Distinct(b)
    requires forall x :: x in a ==> x !in b
    ensures Distinct(a + b)
  {
    var s := a + b;
    forall i, j | 0 <= i < j < |s| ensures s[i] != s[j] {
      if i < |a| && j >= |a| {
        assert s[i] in a && s[j] in b;
      }
    }
  }

  /** In a tree with unique ids no id is listed twice. */
  lemma {:induction false} FlatDistinct(t: Item, record: Record, rootId: string)
    requires Unique(t)
    ensures Distinct(Flat(t, record, rootId))
    decreases t, 1, 0
  {
    var rest := if IsExpanded(record, rootId, t) then FlatFrom(t, 0, record, rootId) else [];
    if IsExpanded(record, rootId, t) {
      FlatFromDistinct(t, 0, record, rootId);
      FlatFromIds(t, 0, record, rootId);
      forall x | x in rest ensures x != t.id {
        IdsFromMember(t, 0, x);
      }
    }
    DistinctConcat([t.id], rest);
  }

  lemma {:induction false} FlatFromDistinct(t: Item, i: nat, record: Record, rootId: string)
    requires Unique(t) && i <= |t.children|
    ensures Distinct(FlatFrom(t, i, record, rootId))
    decreases t, 0, |t.children| - i
  {
    if i < |t.children| {
      var c := t.children[i];
      FlatDistinct(c, record, rootId);
      FlatFromDistinct(t, i + 1, record, rootId);
      FlatIds(c, record, rootId);
      FlatFromIds(t, i + 1, record, rootId);
      forall x | x in Flat(c, record, rootId) ensures x !in FlatFrom(t, i + 1, record, rootId) {
        IdsFromMember(t, i + 1, x);
      }
      DistinctConcat(Flat(c, record, rootId), FlatFrom(t, i + 1, record, rootId));
    }
  }

  /** The hotkeys the tree listens to. */
  datatype Key = Up | Down | Right | Left | Space | Backspace | Delete | Esc

  /** What one key press does: set the selected item's expand flag, move
      the focus (and prevent the default scrolling), ask the host to delete
      the selected item, cancel the current drag, or nothing. */
  datatype KeyAction =
    | NoAction
    | SetExpanded(item: Item, expanded: bool)
    | MoveFocus(id: string)
    | RequestDelete(id: string)
    | CancelDrag

  /** `selectedItem`: the item with the selected id, if any. */
  function SelectedItem(root: Item, selectedItemId: Option<string>): (r: Option<Item>)
    ensures r.Some? <==> selectedItemId.Some? && selectedItemId.value in IdSet(root)
    ensures r.Some? ==> r.value.id == selectedItemId.value
  {
    if selectedItemId.None? then None else FindItemById(root, selectedItemId.value)
  }

  /** The body of the hotkey handler. With nothing selected every key does
      nothing. */
  function KeyActionFor(key: Key, selected: Option<Item>, flat: seq<string>,
                        record: Record, rootId: string): (a: KeyAction)
    ensures selected.None? ==> a == NoAction
    ensures a.SetExpanded? ==> selected.Some? && a.item == selected.value && key in {Right, Left, Space}
    ensures selected.Some? && key == Space ==> a.SetExpanded?
    ensures a.MoveFocus? ==> selected.Some? && key in {Up, Down} && a.id in flat
    ensures a.RequestDelete? <==> selected.Some? && key in {Backspace, Delete}
    ensures a.RequestDelete? ==> a.id == selected.value.id
    ensures a.CancelDrag? <==> selected.Some? && key == Esc
  {
    if selected.None? then NoAction
    else
      var item := selected.value;
      var expanded := IsExpanded(record, rootId, item);
      match key
      case Right => if !expanded then SetExpanded(item, true) else NoAction
      case Left => if expanded then SetExpanded(item, false) else NoAction
      case Space => SetExpanded(item, !expanded)
      case Up =>
        var index := IndexOf(flat, item.id);
        if index > 0 then MoveFocus(flat[index - 1]) else NoAction
      case Down =>
        var index := IndexOf(flat, item.id);
        if index < |flat| - 1 then MoveFocus(flat[index + 1]) else NoAction
      case Backspace => RequestDelete(item.id)
      case Delete => RequestDelete(item.id)
      case Esc => CancelDrag
  }

  /** Up and down move the focus by exactly one position of a flattened
      order without repeated ids, and do nothing at the first (up) or the
      last (down) position: there is no wrap-around. A selected item that is
      not listed counts as position -1, so down then focuses the first item. */
  lemma ArrowsStepByOne(key: Key, item: Item, flat: seq<string>, record: Record, rootId: string)
    requires key == Up || key == Down
    requires Distinct(flat)
    ensures var a := KeyActionFor(key, Some(item), flat, record, rootId);
            var index := IndexOf(flat, item.id);
            && (a.MoveFocus? || a == NoAction)
            && (key == Up ==> (a.MoveFocus? <==> index > 0))
            && (key == Down ==> (a.MoveFocus? <==> index < |flat| - 1))
            && (a.MoveFocus? && key == Up ==> IndexOf(flat, a.id) == index - 1)
            && (a.MoveFocus? && key == Down ==> IndexOf(flat, a.id) == index + 1)
  {
    var index := IndexOf(flat, item.id);
    var a := KeyActionFor(key, Some(item), flat, record, rootId);
    if a.MoveFocus? {
      var target := if key == Up then index - 1 else index + 1;
      assert flat[target] == a.id;
      var found := IndexOf(flat, a.id);
      if found != target {
        assert flat[found] == flat[target];
      }
    }
  }

  /** The expand keys, followed through `setIsExpanded`: right leaves the
      item expanded when it can be (it is the root or has children), left
      leaves a non-root item collapsed, and space flips an item that has
      children and is not the root. */
  lemma ExpandKeysEffect(key: Key, item: Item, flat: seq<string>, record: Record, rootId: string)
    requires key in {Right, Left, Space}
    ensures var a := KeyActionFor(key, Some(item), flat, record, rootId);
            var after := if a.SetExpanded? then record[a.item.id := a.expanded] else record;
            && (a.SetExpanded? || a == NoAction)
            && (key == Right ==> IsExpanded(after, rootId, item) == (item.id == rootId || |item.children| > 0))
            && (key == Left ==> (IsExpanded(after, rootId, item) <==> item.id == rootId))
            && (key == Space && item.id != rootId && |item.children| > 0 ==>
                  IsExpanded(after, rootId, item) == !IsExpanded(record, rootId, item))
  {
  }

  /** The hotkey handler run against the store: computes the selected item
      and the flattened order from the current props and record, then
      carries out the key's action on the expand record. Focus moves,
      deletion and drag cancellation are returned to the caller. */
  method HandleKey(store: ExpandStore, root: TreeRoot, selectedItemId: Option<string>, key: Key)
    returns (a: KeyAction)
    modifies store
    ensures a == KeyActionFor(key, SelectedItem(root.item, selectedItemId),
                              Flat(root.item, old(store.record), root.item.id),
                              old(store.record), root.item.id)
    ensures a.SetExpanded? ==> store.record == old(store.record)[a.item.id := a.expanded] &&
                               store.writes == old(store.writes) + 1
    ensures !a.SetExpanded? ==> store.record == old(store.record) && store.writes == old(store.writes)
    ensures store.prevSelectedItemId == old(store.prevSelectedItemId) && store.prevRoot == old(store.prevRoot)
  {
    var selected := SelectedItem(root.item, selectedItemId);
    var flat := FlattenExpanded(root.item, store.record);
    a := KeyActionFor(key, selected, flat, store.record, root.item.id);
    if a.SetExpanded? {
      store.SetIsExpanded(a.item, a.expanded);
    }
  }
}
