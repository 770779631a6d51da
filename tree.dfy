/** The host's hierarchy as the tree component sees it: items with a string
    id and ordered children, and the accessors `getItemPath`,
    `findItemById` and `getItemChildren` that the component is given. */
module Tree {

  import opened Wrappers
  import opened Seqs

  /** An item of the hierarchy and its ordered children. */
  datatype Item = Item(id: string, children: seq<Item>)

  /** The root object the host passes in. The component compares roots by
      identity: a new root object tells it that the tree has changed. */
  class TreeRoot {
    const item: Item

    constructor (item: Item)
      ensures this.item == item
    {
      this.item := item;
    }
  }

  /** The ids of `t` and all its descendants. */
  ghost function IdSet(t: Item): set<string>
    decreases t, 1, 0
  {
    {t.id} + IdsFrom(t, 0)
  }

  /** The ids of the subtrees of `t.children[i..]`. */
  ghost function IdsFrom(t: Item, i: nat): set<string>
    requires i <= |t.children|
    decreases t, 0, |t.children| - i
  {
    if i == |t.children| then {} else IdSet(t.children[i]) + IdsFrom(t, i + 1)
  }

  /** `IdsFrom(t, i)` holds the ids of exactly the subtrees it is made of. */
  lemma {:induction false} IdsFromMember(t: Item, i: nat, x: string)
    requires i <= |t.children|
    ensures x in IdsFrom(t, i) <==> exists j :: i <= j < |t.children| && x in IdSet(t.children[j])
    decreases |t.children| - i
  {
    if i < |t.children| {
      IdsFromMember(t, i + 1, x);
      if x in IdSet(t.children[i]) {
        assert i <= i < |t.children| && x in IdSet(t.children[i]);
      }
    }
  }

  /** Every id occurs once in the tree. */
  ghost predicate Unique(t: Item)
    decreases t
  {
    && (forall i :: 0 <= i < |t.children| ==> Unique(t.children[i]))
    && (forall i :: 0 <= i < |t.children| ==> t.id !in IdSet(t.children[i]))
    && (forall i, j :: 0 <= i < j < |t.children| ==> IdSet(t.children[i]) !! IdSet(t.children[j]))
  }

  /** `getItemPath`: the items from `root` down to the item with id `id`,
      both included; empty when no item has that id. */
  function GetItemPath(root: Item, id: string): (p: seq<Item>)
    decreases root, 1, 0
    ensures p == [] <==> id !in IdSet(root)
    ensures p != [] ==> p[0] == root && p[|p| - 1].id == id
    ensures forall k :: 0 <= k < |p| - 1 ==> p[k + 1] in p[k].children
  {
    if root.id == id then [root] else ChildPath(root, id, 0)
  }

  /** The path through the first of `t.children[i..]` that holds `id`. */
  function ChildPath(t: Item, id: string, i: nat): (p: seq<Item>)
    requires i <= |t.children|
    decreases t, 0, |t.children| - i
    ensures p == [] <==> id !in IdsFrom(t, i)
    ensures p != [] ==> |p| >= 2 && p[0] == t && p[|p| - 1].id == id
    ensures forall k :: 0 <= k < |p| - 1 ==> p[k + 1] in p[k].children
  {
    if i == |t.children| then []
    else
      var q := GetItemPath(t.children[i], id);
      if q != [] then [t] + q else ChildPath(t, id, i + 1)
  }

  /** The path search stops at the first item carrying the id: no item
      above the last one on the path has it. */
  lemma {:induction false} PathStopsAtMatch(root: Item, id: string)
    ensures forall k :: 0 <= k < |GetItemPath(root, id)| - 1 ==> GetItemPath(root, id)[k].id != id
    decreases root, 1, 0
  {
    if root.id != id {
      assert GetItemPath(root, id) == ChildPath(root, id, 0);
      ChildPathStopsAtMatch(root, id, 0);
    }
  }

  /** The same for the search through `t.children[i..]`, below `t` itself. */
  lemma {:induction false} ChildPathStopsAtMatch(t: Item, id: string, i: nat)
    requires i <= |t.children|
    ensures forall k :: 1 <= k < |ChildPath(t, id, i)| - 1 ==> ChildPath(t, id, i)[k].id != id
    decreases t, 0, |t.children| - i
  {
    if i < |t.children| {
      var q := GetItemPath(t.children[i], id);
      if q != [] {
        PathStopsAtMatch(t.children[i], id);
        var p := [t] + q;
        assert ChildPath(t, id, i) == p;
        forall k | 1 <= k < |p| - 1 ensures p[k].id != id {
          assert p[k] == q[k - 1] && k - 1 < |q| - 1;
        }
      } else {
        assert ChildPath(t, id, i) == ChildPath(t, id, i + 1);
        ChildPathStopsAtMatch(t, id, i + 1);
      }
    }
  }

  /** `findItemById`: the item with id `id`, if the tree holds one. */
  function FindItemById(root: Item, id: string): (r: Option<Item>)
    ensures r.Some? <==> id in IdSet(root)
    ensures r.Some? ==> r.value.id == id
  {
    var p := GetItemPath(root, id);
    if p == [] then None else Some(p[|p| - 1])
  }

  /** `getItemChildren`. */
  function GetItemChildren(item: Item): seq<Item> {
    item.children
  }

  /** The ids along a path, in order (`path.map(item => item.id)`). */
  function PathIds(p: seq<Item>): (r: seq<string>)
    ensures |r| == |p| && forall k :: 0 <= k < |p| ==> r[k] == p[k].id
  {
    seq(|p|, k requires 0 <= k < |p| => p[k].id)
  }

  /** The path search skips children whose subtrees lack the id and runs
      through the first child whose subtree holds it. */
  lemma {:induction false} ChildPathAt(t: Item, x: string, i: nat, j: nat)
    requires i <= j < |t.children| && x in IdSet(t.children[j])
    requires forall m :: i <= m < j ==> x !in IdSet(t.children[m])
    ensures ChildPath(t, x, i) == [t] + GetItemPath(t.children[j], x)
    decreases j - i
  {
    if i < j {
      ChildPathAt(t, x, i + 1, j);
    }
  }

  /** In a tree with unique ids, the path to an item runs through the
      child whose subtree holds it. */
  lemma PathThroughChild(t: Item, x: string, j: nat)
    requires Unique(t)
    requires j < |t.children| && x in IdSet(t.children[j])
    ensures GetItemPath(t, x) == [t] + GetItemPath(t.children[j], x)
  {
    assert t.id !in IdSet(t.children[j]);
    forall m | 0 <= m < j ensures x !in IdSet(t.children[m]) {
      assert IdSet(t.children[m]) !! IdSet(t.children[j]);
    }
    ChildPathAt(t, x, 0, j);
  }

  /** An id below the root lies in the subtree of one of the root's children. */
  lemma ChildHolding(t: Item, x: string) returns (j: nat)
    requires x in IdSet(t) && x != t.id
    ensures j < |t.children| && x in IdSet(t.children[j])
  {
    IdsFromMember(t, 0, x);
    j :| 0 <= j < |t.children| && x in IdSet(t.children[j]);
  }

  /** A prefix of a sequence with one item put in front. */
  lemma ConsTake(t: Item, q: seq<Item>, k: nat)
    requires k <= |q|
    ensures ([t] + q)[..k + 1] == [t] + q[..k]
  {
  }

  /** Every prefix of a path is the path to its last item: the ancestors of
      an item are exactly the items above it on its path. */
  lemma {:induction false} PathPrefix(t: Item, id: string, k: nat)
    requires Unique(t)
    requires k < |GetItemPath(t, id)|
    ensures GetItemPath(t, GetItemPath(t, id)[k].id) == GetItemPath(t, id)[..k + 1]
    decreases t
  {
    var p := GetItemPath(t, id);
    if k > 0 {
      assert t.id != id;
      var j := ChildHolding(t, id);
      var c := t.children[j];
      PathThroughChild(t, id, j);
      var q := GetItemPath(c, id);
      assert p == [t] + q;
      PathPrefix(c, id, k - 1);
      var y := q[k - 1].id;
      assert GetItemPath(c, y) == q[..k];
      PathThroughChild(t, y, j);
      ConsTake(t, q, k);
    }
  }

  /** The items on a path carry distinct ids. */
  lemma PathIdsDistinct(t: Item, id: string)
    requires Unique(t)
    ensures Distinct(PathIds(GetItemPath(t, id)))
  {
    var p := GetItemPath(t, id);
    forall i, j | 0 <= i < j < |p| ensures p[i].id != p[j].id {
      PathPrefix(t, id, i);
      PathPrefix(t, id, j);
    }
  }

  /** Putting one item in front of two paths that share a prefix keeps
      them sharing that prefix. */
  lemma ConsPrefix(t: Item, qd: seq<Item>, qx: seq<Item>, tail: seq<Item>)
    requires qd != [] && qx == qd[..|qd| - 1] + tail
    ensures var pd := [t] + qd; [t] + qx == pd[..|pd| - 1] + tail
  {
    var pd := [t] + qd;
    assert pd[..|pd| - 1] == [t] + qd[..|qd| - 1];
  }

  /** The path to any item in the subtree of `d` runs through `d`'s own path:
      an item's descendants are below it. */
  lemma {:induction false} PathThrough(t: Item, d: string, x: string)
    requires Unique(t) && d in IdSet(t)
    requires x in IdSet(FindItemById(t, d).value)
    ensures var pd := GetItemPath(t, d);
            GetItemPath(t, x) == pd[..|pd| - 1] + GetItemPath(pd[|pd| - 1], x)
    decreases t
  {
    if t.id != d {
      var j := ChildHolding(t, d);
      var c := t.children[j];
      PathThroughChild(t, d, j);
      var qd := GetItemPath(c, d);
      var dItem := qd[|qd| - 1];
      assert FindItemById(c, d) == Some(dItem);
      PathThrough(c, d, x);
      PathThroughChild(t, x, j);
      ConsPrefix(t, qd, GetItemPath(c, x), GetItemPath(dItem, x));
    }
  }

  /** An item lies on the path to each of its descendants. */
  lemma OnPathToDescendant(t: Item, d: string, x: string)
    requires Unique(t) && d in IdSet(t)
    requires x in IdSet(FindItemById(t, d).value)
    ensures FindItemById(t, d).value in GetItemPath(t, x)
  {
    PathThrough(t, d, x);
    var pd := GetItemPath(t, d);
    var q := GetItemPath(pd[|pd| - 1], x);
    assert q[0] == pd[|pd| - 1];
    assert GetItemPath(t, x)[|pd| - 1] == q[0];
  }
}
