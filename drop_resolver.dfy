/** The drop-target resolver of the tree component (`swapDropTarget`): given
    the item the pointer is over, choose the item that will receive the
    dragged item as a child. The dragged item and its subtree are never
    chosen. */
module DropResolver {

  import opened Wrappers
  import opened Seqs
  import opened Tree

  /** Where the pointer is within the hovered item's box. `Top` and `Bottom`
      are the gaps between items; the others are over the item itself. */
  datatype Area = Top | Bottom | CenterLeft | CenterRight

  /** The drop target the drag primitive reports: the hovered item and the
      area of it under the pointer. */
  datatype DropTarget = DropTarget(data: Item, area: Area)

  /** What `swapDropTarget` returns: the reported target unchanged, an
      accepting item with its element (`{ data, element, final: true }`), or
      the root fallback (`getFallbackDropTarget()`). */
  datatype SwapResult = Kept(target: DropTarget) | Accepted(data: Item) | Fallback

  /** `findIndex` by id: the first position holding `id`, or -1. */
  function IndexOfId(s: seq<Item>, id: string): (r: int)
    ensures -1 <= r < |s|
    ensures r >= 0 ==> s[r].id == id && forall m :: 0 <= m < r ==> s[m].id != id
    ensures r == -1 ==> forall m :: 0 <= m < |s| ==> s[m].id != id
  {
    if s == [] then -1
    else if s[0].id == id then 0
    else
      var k := IndexOfId(s[1..], id);
      if k == -1 then -1 else k + 1
  }

  /** The last position holding `id`, or -1. */
  function LastIndexOfId(s: seq<Item>, id: string): (r: int)
    ensures -1 <= r < |s|
    ensures r >= 0 ==> s[r].id == id
    ensures forall m :: r < m < |s| ==> s[m].id != id
  {
    if s == [] then -1
    else if s[|s| - 1].id == id then |s| - 1
    else LastIndexOfId(s[..|s| - 1], id)
  }

  /** The first position of `id` in the reversed sequence is the mirror of
      its last position in the original. */
  lemma IndexOfIdReverse(s: seq<Item>, id: string)
    ensures var last := LastIndexOfId(s, id);
            IndexOfId(Reverse(s), id) == if last == -1 then -1 else |s| - 1 - last
  {
    var last, r := LastIndexOfId(s, id), Reverse(s);
    if last >= 0 {
      assert r[|s| - 1 - last] == s[last];
    }
  }

  /** The part of the root-to-target path that may hold the new parent: for
      the `Top` and `Bottom` areas the hovered item itself is left out, as
      the item would go beside it rather than into it. */
  function Hovered(path: seq<Item>, area: Area): seq<Item> {
    if (area == Top || area == Bottom) && path != [] then path[..|path| - 1] else path
  }

  /** The items that may accept the dragged item, nearest first: the hovered
      part of the path, cut just above the deepest occurrence of the dragged
      item. */
  function Candidates(path: seq<Item>, area: Area, dragId: string): seq<Item> {
    var h := Hovered(path, area);
    var cut := LastIndexOfId(h, dragId);
    Reverse(if cut == -1 then h else h[..cut])
  }

  /** The ids of the item with id `id` and of its descendants. */
  ghost function SubtreeIds(root: Item, id: string): set<string> {
    match FindItemById(root, id)
    case Some(d) => IdSet(d)
    case None => {}
  }

  /** `parent` is neither the dragged item nor below it: no item on the path
      from the root to `parent` has the dragged item's id. */
  ghost predicate OutsideDragged(root: Item, dragId: string, parent: Item) {
    && (forall it :: it in GetItemPath(root, parent.id) ==> it.id != dragId)
    && parent.id !in SubtreeIds(root, dragId)
  }

  /** Reversing the path and shifting off its first entry for `Top` and
      `Bottom` leaves the hovered part, reversed. */
  lemma ShiftIsHovered(p: seq<Item>, area: Area)
    ensures var start := if (area == Top || area == Bottom) && p != [] then 1 else 0;
            Reverse(p)[start..] == Reverse(Hovered(p, area))
  {
    var start := if (area == Top || area == Bottom) && p != [] then 1 else 0;
    assert Hovered(p, area) == p[..|p| - start];
    ReverseDrop(p, start);
  }

  /** Splicing a reversed sequence up to and including the first occurrence
      of the dragged item cuts it just above its deepest occurrence. */
  lemma SpliceIsCut(h: seq<Item>, dragId: string, i: int, cut: int)
    requires i == IndexOfId(Reverse(h), dragId)
    requires cut == LastIndexOfId(h, dragId)
    ensures (if i == -1 then Reverse(h) else Reverse(h)[i + 1..]) == Reverse(if cut == -1 then h else h[..cut])
  {
    IndexOfIdReverse(h, dragId);
    if i != -1 {
      assert cut == |h| - 1 - i;
      ReverseDrop(h, i + 1);
    }
  }


  /** What the array steps of `swapDropTarget` leave: reversing the path,
      shifting off its first entry for `Top` and `Bottom`, and splicing off
      everything up to the first occurrence of the dragged item yields the
      candidates. */
  lemma ShiftSpliceIsCandidates(p: seq<Item>, area: Area, dragId: string,
                                start: nat, rest: seq<Item>, i: int)
    requires start == if (area == Top || area == Bottom) && p != [] then 1 else 0
    requires rest == Reverse(p)[start..]
    requires i == IndexOfId(rest, dragId)
    ensures (if i == -1 then rest else rest[i + 1..]) == Candidates(p, area, dragId)
  {
    var h := Hovered(p, area);
    ShiftIsHovered(p, area);
    SpliceIsCut(h, dragId, i, LastIndexOfId(h, dragId));
  }

  /** A candidate's position on the path: inside the hovered part and above
      the deepest occurrence of the dragged item there. */
  lemma CandidatePosition(p: seq<Item>, area: Area, dragId: string, c: Item) returns (k: nat)
    requires c in Candidates(p, area, dragId)
    ensures var h := Hovered(p, area);
            var last := LastIndexOfId(h, dragId);
            k < |h| && h[k] == c && p[k] == c && (last == -1 || k < last)
  {
    var h := Hovered(p, area);
    var last := LastIndexOfId(h, dragId);
    var kept := if last == -1 then h else h[..last];
    var m :| 0 <= m < |kept| && Reverse(kept)[m] == c;
    k := |kept| - 1 - m;
  }

  /** On a path with distinct ids, no item at or above a candidate's
      position has the dragged item's id. */
  lemma NoDragAbove(p: seq<Item>, area: Area, dragId: string, k: nat)
    requires Distinct(PathIds(p))
    requires var h := Hovered(p, area);
             var last := LastIndexOfId(h, dragId);
             k < |h| && (last == -1 || k < last)
    ensures forall i :: 0 <= i <= k ==> p[i].id != dragId
  {
    var h := Hovered(p, area);
    var last := LastIndexOfId(h, dragId);
    forall i | 0 <= i <= k ensures p[i].id != dragId {
      assert p[i] == h[i];
    }
  }

  /** A prefix none of whose positions holds `dragId` holds no item with
      that id. */
  lemma PrefixAvoids(p: seq<Item>, k: nat, dragId: string)
    requires k < |p|
    requires forall i :: 0 <= i <= k ==> p[i].id != dragId
    ensures forall it :: it in p[..k + 1] ==> it.id != dragId
  {
    forall it | it in p[..k + 1] ensures it.id != dragId {
      var i :| 0 <= i <= k && p[i] == it;
    }
  }

  /** No item on the path to a candidate has the dragged item's id. */
  lemma CandidateAncestors(root: Item, targetId: string, area: Area, dragId: string, c: Item)
    requires Unique(root)
    requires c in Candidates(GetItemPath(root, targetId), area, dragId)
    ensures forall it :: it in GetItemPath(root, c.id) ==> it.id != dragId
  {
    var p := GetItemPath(root, targetId);
    var k := CandidatePosition(p, area, dragId, c);
    PathIdsDistinct(root, targetId);
    NoDragAbove(p, area, dragId, k);
    PathPrefix(root, targetId, k);
    PrefixAvoids(p, k, dragId);
  }

  /** An item none of whose ancestors is the dragged item lies outside the
      dragged item's subtree. */
  lemma AncestorsOutsideDragged(root: Item, dragId: string, c: Item)
    requires Unique(root)
    requires forall it :: it in GetItemPath(root, c.id) ==> it.id != dragId
    ensures OutsideDragged(root, dragId, c)
  {
    if dragId in IdSet(root) && c.id in SubtreeIds(root, dragId) {
      OnPathToDescendant(root, dragId, c.id);
    }
  }

  /** Every candidate is an item of the hovered part of the path, so it is
      on the path and, for the `Top` and `Bottom` areas, is not the hovered
      item: the path search stops at the first item with the target's id. */
  lemma CandidateOnPath(root: Item, targetId: string, area: Area, dragId: string, c: Item)
    requires c in Candidates(GetItemPath(root, targetId), area, dragId)
    ensures var p := GetItemPath(root, targetId);
            exists k :: 0 <= k < |Hovered(p, area)| && p[k] == c
    ensures c in GetItemPath(root, targetId)
    ensures (area == Top || area == Bottom) ==> c.id != targetId
  {
    var p := GetItemPath(root, targetId);
    var k := CandidatePosition(p, area, dragId, c);
    PathStopsAtMatch(root, targetId);
    assert p[k] == c;
  }

  /** In a tree with unique ids, every candidate also lies outside the
      dragged item's subtree. */
  lemma CandidatesAreSafe(root: Item, targetId: string, area: Area, dragId: string, c: Item)
    requires Unique(root)
    requires c in Candidates(GetItemPath(root, targetId), area, dragId)
    ensures c in GetItemPath(root, targetId)
    ensures (area == Top || area == Bottom) ==> c.id != targetId
    ensures OutsideDragged(root, dragId, c)
  {
    CandidateOnPath(root, targetId, area, dragId, c);
    CandidateAncestors(root, targetId, area, dragId, c);
    AncestorsOutsideDragged(root, dragId, c);
  }

  /** `path.reverse()` on the array of path items. */
  method ReverseInPlace<T>(a: array<T>)
    modifies a
    ensures a[..] == Reverse(old(a[..]))
  {
    ghost var before := a[..];
    var lo, hi := 0, a.Length;
    while lo + 1 < hi
      invariant 0 <= lo <= hi <= a.Length && lo + hi == a.Length
      invariant forall k :: 0 <= k < lo ==> a[k] == before[a.Length - 1 - k]
      invariant forall k :: hi <= k < a.Length ==> a[k] == before[a.Length - 1 - k]
      invariant forall k :: lo <= k < hi ==> a[k] == before[k]
    {
      a[lo], a[hi - 1] := a[hi - 1], a[lo];
      lo, hi := lo + 1, hi - 1;
    }
  }

  /** The array steps of `swapDropTarget` between `getItemPath` and
      `find`: copy the path into an array, reverse it, shift off the hovered
      item for `Top` and `Bottom`, and splice off everything up to and
      including the dragged item. `shift` and `splice(0, n)` each drop a
      prefix of the reversed path. */
  method ShiftAndSplice(p: seq<Item>, area: Area, dragId: string) returns (c: seq<Item>)
    ensures c == Candidates(p, area, dragId)
  {
    var path := new Item[|p|](k requires 0 <= k < |p| => p[k]);
    assert path[..] == p;
    ReverseInPlace(path);
    var start := if (area == Top || area == Bottom) && path.Length > 0 then 1 else 0;
    var rest := path[start..];
    var dragIndex := IndexOfId(rest, dragId);
    ShiftSpliceIsCandidates(p, area, dragId, start, rest, dragIndex);
    c := if dragIndex == -1 then rest else rest[dragIndex + 1..];
  }

  /** `swapDropTarget`. Without a dragged item or a reported target it falls
      back to the root; a target that is the root is kept; otherwise it
      takes the path to the target in an array, reverses it, shifts off the
      hovered item for `Top` and `Bottom`, splices off everything up to and
      including the dragged item, and picks the first item that
      `canAcceptChild` holds for. When there is none, or the chosen item has
      no element on screen (`hasElement`), it falls back to the root. */
  method SwapDropTarget(root: Item, dragItem: Option<Item>, dropTarget: Option<DropTarget>,
                        canAcceptChild: Item -> bool, hasElement: string -> bool)
    returns (r: SwapResult)
    ensures dragItem.None? || dropTarget.None? ==> r == Fallback
    ensures dragItem.Some? && dropTarget.Some? && dropTarget.value.data.id == root.id ==>
              r == Kept(dropTarget.value)
    ensures dragItem.Some? && dropTarget.Some? && dropTarget.value.data.id != root.id ==>
              var found := Find(Candidates(GetItemPath(root, dropTarget.value.data.id),
                                           dropTarget.value.area, dragItem.value.id), canAcceptChild);
              r == if found.Some? && hasElement(found.value.id) then Accepted(found.value) else Fallback
    ensures r.Kept? ==> r.target.data.id == root.id
    ensures r.Accepted? ==> canAcceptChild(r.data) && hasElement(r.data.id)
    ensures r.Accepted? ==>
              && r.data in GetItemPath(root, dropTarget.value.data.id)
              && (dropTarget.value.area in {Top, Bottom} ==> r.data.id != dropTarget.value.data.id)
    ensures r.Accepted? && Unique(root) ==> OutsideDragged(root, dragItem.value.id, r.data)
  {
    if dragItem.None? || dropTarget.None? {
      return Fallback;
    }
    var drag, target := dragItem.value, dropTarget.value;
    if target.data.id == root.id {
      return Kept(target);
    }
    var path := ShiftAndSplice(GetItemPath(root, target.data.id), target.area, drag.id);
    var data := Find(path, canAcceptChild);
    if data.None? {
      return Fallback;
    }
    if !hasElement(data.value.id) {
      return Fallback;
    }
    CandidateOnPath(root, target.data.id, target.area, drag.id, data.value);
    if Unique(root) {
      CandidatesAreSafe(root, target.data.id, target.area, drag.id, data.value);
    }
    return Accepted(data.value);
  }

  /** The tree `r -> [a, b -> [c]]`: dragging `a` over the bottom edge of
      `c`, where `b` accepts children, resolves to `b`. */
  lemma HoverBelowLeafScenario(canAcceptChild: Item -> bool)
    requires canAcceptChild(Item("b", [Item("c", [])]))
    ensures var c := Item("c", []);
            var b := Item("b", [c]);
            var tree := Item("r", [Item("a", []), b]);
            Find(Candidates(GetItemPath(tree, "c"), Bottom, "a"), canAcceptChild) == Some(b)
  {
    var c := Item("c", []);
    var b := Item("b", [c]);
    var tree := Item("r", [Item("a", []), b]);
    assert GetItemPath(c, "c") == [c];
    assert GetItemPath(b, "c") == [b, c];
    assert GetItemPath(Item("a", []), "c") == [];
    assert ChildPath(tree, "c", 1) == [tree, b, c];
    assert ChildPath(tree, "c", 0) == [tree, b, c];
    var h := Hovered([tree, b, c], Bottom);
    assert h == [tree, b];
    assert LastIndexOfId(h, "a") == -1;
    var cands := Candidates([tree, b, c], Bottom, "a");
    assert cands == [b, tree];
    assert FirstIndex(cands, canAcceptChild) == 0;
  }
}
