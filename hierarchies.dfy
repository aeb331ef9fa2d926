/**
 * The tree-mutation engine of the editor: the queries `isDescendant` and
 * `findParent` and the edits `moveItem`, `removeItem`, `orderItem`,
 * `switchItem` and `createItem`.
 *
 * Each edit is given as a function on forests that follows the steps of
 * the component, and the `Editor` class performs it on its `items` field
 * by way of the loop-based workers below.  The lemmas state what each
 * edit guarantees about the words, their ids and their parent links.
 */
module Hierarchies {
  import opened Forest

  // ---------------------------------------------------------------------
  // Queries
  // ---------------------------------------------------------------------

  /**
   * `isDescendant(parent, child)`: `child` is an entry of `parent.items`,
   * or a descendant of one of them.
   */
  method IsDescendant(parent: Item, child: Id) returns (b: bool)
    ensures b == Contains(parent.items, child)
    decreases parent
  {
    var l := parent.items;
    if HasChild(l, child) {
      IdAtIn(l, IndexOf(l, child));
      return true;
    }
    for i := 0 to |l|
      invariant !Contains(l[..i], child)
    {
      var d := IsDescendant(l[i], child);
      ContainsSnoc(l, i, child);
      if d {
        PrefixContains(l, i + 1, child);
        return true;
      }
    }
    assert l[..|l|] == l;
    return false;
  }

  /** `isDescendant` only follows child steps: a word is not its own descendant. */
  lemma {:induction false} NotOwnDescendant(u: Item)
    requires Unique([u])
    ensures !Contains(u.items, u.id.value)
  {
    UniqueParts([u]);
  }

  /**
   * `findParent(x, list)`: the first word, walking `list` in preorder,
   * whose `items` has `x` as an entry.
   */
  function ParentOf(s: seq<Item>, x: Id): (r: Option<Item>)
    ensures r.Some? ==> HasChild(r.value.items, x)
  {
    if s == [] then None
    else if HasChild(s[0].items, x) then Some(s[0])
    else match ParentOf(s[0].items, x)
      case Some(p) => Some(p)
      case None => ParentOf(s[1..], x)
  }

  /**
   * What `findParent` returns is the word of the forest of which `x` is
   * an immediate child, and it returns nothing exactly when no word has
   * `x` as an immediate child (`x` is a root, or absent).
   */
  lemma {:induction false} ParentOfSpec(s: seq<Item>, x: Id)
    ensures ParentOf(s, x).Some? ==> ParentOf(s, x).value in Nodes(s)
    ensures ParentOf(s, x).None? <==> forall u | u in Nodes(s) :: !HasChild(u.items, x)
  {
    if s != [] {
      ParentOfSpec(s[0].items, x);
      ParentOfSpec(s[1..], x);
      assert Nodes(s) == [s[0]] + Nodes(s[0].items) + Nodes(s[1..]);
    }
  }

  /**
   * In a unique forest `findParent` finds nothing exactly for the words of
   * the root list.
   */
  lemma {:induction false} ParentOfRoot(s: seq<Item>, x: Id)
    requires Unique(s) && Contains(s, x)
    ensures ParentOf(s, x).None? <==> HasChild(s, x)
  {
    if HasChild(s, x) {
      RootNoParent(s, x);
    } else {
      NestedHasParent(s, x);
    }
  }

  lemma {:induction false} RootNoParent(s: seq<Item>, x: Id)
    requires Unique(s) && HasChild(s, x)
    ensures ParentOf(s, x).None?
  {
    ParentOfSpec(s, x);
    if ParentOf(s, x).Some? {
      var u := ParentOf(s, x).value;
      NodeIdIn(s, u);
      assert u.id in multiset(Ids(s));
      ChildLink(s, None, u, IndexOf(u.items, x));
      TopLink(s, None, IndexOf(s, x));
      LinkOnce(s, None, u.id, None, x);
      assert false;
    }
  }

  lemma {:induction false} NestedHasParent(s: seq<Item>, x: Id)
    requires Contains(s, x) && !HasChild(s, x)
    ensures ParentOf(s, x).Some?
  {
    assert Ids(s) == [s[0].id] + Ids(s[0].items) + Ids(s[1..]);
    if Contains(s[0].items, x) {
      if !HasChild(s[0].items, x) {
        NestedHasParent(s[0].items, x);
      }
    } else {
      assert IndexOf(s[1..], x) < 0;
      NestedHasParent(s[1..], x);
    }
  }

  /** The loop of `findParent`, with its early returns. */
  method FindParent(x: Id, list: seq<Item>) returns (r: Option<Item>)
    ensures r == ParentOf(list, x)
    decreases list
  {
    for i := 0 to |list|
      invariant ParentOf(list, x) == ParentOf(list[i..], x)
    {
      var root := list[i];
      assert list[i..][0] == root && list[i..][1..] == list[i + 1..];
      if HasChild(root.items, x) {
        return Some(root);
      }
      var found := FindParent(x, root.items);
      if found.Some? {
        return found;
      }
    }
    return None;
  }

  // ---------------------------------------------------------------------
  // removeItem
  // ---------------------------------------------------------------------

  /**
   * `removeItem(x, list)`: when an entry of `list` has id `x` it is
   * spliced out; otherwise the children's lists are searched, every one of
   * them.  The flag is the value `removeItem` returns.
   */
  function Remove(s: seq<Item>, x: Id): (r: (seq<Item>, bool))
    ensures r.1 == Contains(s, x)
    ensures !r.1 ==> r.0 == s
    decreases s, 1
  {
    var i := IndexOf(s, x);
    if i >= 0 then
      IdAtIn(s, i);
      (s[..i] + s[i + 1..], true)
    else
      RemoveInEach(s, x)
  }

  /** The `for (const child of itemList)` branch of `removeItem`. */
  function RemoveInEach(s: seq<Item>, x: Id): (r: (seq<Item>, bool))
    ensures (forall k | 0 <= k < |s| :: s[k].id != Some(x)) ==> r.1 == Contains(s, x)
    ensures !r.1 ==> r.0 == s
    decreases s, 0
  {
    if s == [] then ([], false)
    else
      var (h, found) := Remove(s[0].items, x);
      var (rest, found') := RemoveInEach(s[1..], x);
      assert s == [s[0]] + s[1..];
      ([s[0].(items := h)] + rest, found || found')
  }

  /**
   * The loop of `removeItem`: the children are visited in order, each one's
   * list is replaced by the list with `x` removed, and the flag accumulates.
   */
  method RemoveFrom(l: seq<Item>, x: Id) returns (list: seq<Item>, result: bool)
    ensures (list, result) == Remove(l, x)
    decreases l, 1
  {
    var index := IndexOf(l, x);
    if index >= 0 {
      list := l[..index] + l[index + 1..];
      result := true;
    } else {
      list, result := RemoveFromEach(l, x);
    }
  }

  method RemoveFromEach(l: seq<Item>, x: Id) returns (list: seq<Item>, result: bool)
    ensures (list, result) == RemoveInEach(l, x)
    decreases l, 0
  {
    list, result := l, false;
    ghost var done: seq<Item> := [];
    for j := 0 to |l|
      invariant |done| == j && list == done + l[j..]
      invariant done + RemoveInEach(l[j..], x).0 == RemoveInEach(l, x).0
      invariant (result || RemoveInEach(l[j..], x).1) == RemoveInEach(l, x).1
    {
      var child := l[j];
      var h, found := RemoveFrom(child.items, x);
      RemoveEachStep(l, j, x, done, result, h, found);
      UpdateAt(done, l, j, child.(items := h));
      list := list[j := child.(items := h)];
      done := done + [child.(items := h)];
      result := result || found;
    }
    assert l[|l|..] == [];
  }

  /** How one pass of the loop in `RemoveFromEach` keeps its invariant. */
  lemma {:induction false} RemoveEachStep(l: seq<Item>, j: nat, x: Id, done: seq<Item>, result: bool, h: seq<Item>, found: bool)
    requires j < |l| && (h, found) == Remove(l[j].items, x)
    requires done + RemoveInEach(l[j..], x).0 == RemoveInEach(l, x).0
    requires (result || RemoveInEach(l[j..], x).1) == RemoveInEach(l, x).1
    ensures (done + [l[j].(items := h)]) + RemoveInEach(l[j + 1..], x).0 == RemoveInEach(l, x).0
    ensures (result || found || RemoveInEach(l[j + 1..], x).1) == RemoveInEach(l, x).1
  {
    assert l[j..][0] == l[j] && l[j..][1..] == l[j + 1..];
    var rest := RemoveInEach(l[j + 1..], x).0;
    assert done + ([l[j].(items := h)] + rest) == (done + [l[j].(items := h)]) + rest;
  }

  lemma {:induction false} IdsConcatMs(a: seq<Option<Id>>, m: seq<Option<Id>>, b: seq<Option<Id>>)
    ensures multiset(a + m + b) == multiset(a + b) + multiset(m)
  {
    assert multiset(a + m + b) == multiset(a) + multiset(m) + multiset(b);
    assert multiset(a + b) == multiset(a) + multiset(b);
  }

  /** Overwriting entry `j` of `a + l[j..]`, where `a` is `j` long. */
  lemma {:induction false} UpdateAt<T>(a: seq<T>, l: seq<T>, j: nat, c: T)
    requires |a| == j < |l|
    ensures (a + l[j..])[j := c] == (a + [c]) + l[j + 1..]
  {
    var u, v := (a + l[j..])[j := c], (a + [c]) + l[j + 1..];
    assert |u| == |v|;
    forall k | 0 <= k < |u| ensures u[k] == v[k] {
    }
  }

  /**
   * `removeItem` takes out the preorder block of `x` (the word and its
   * whole subtree) and keeps every other id, in its order.
   */
  lemma {:induction false} RemoveIds(s: seq<Item>, x: Id) returns (a: seq<Option<Id>>, b: seq<Option<Id>>)
    requires Unique(s) && Contains(s, x)
    ensures Ids(s) == a + Ids([Find(s, x).value]) + b
    ensures Ids(Remove(s, x).0) == a + b
    decreases s, 2
  {
    var i := IndexOf(s, x);
    if i >= 0 {
      ChildInNodes(s, i);
      FindNode(s, s[i]);
      SplitAt(s, i, None);
      a, b := Ids(s[..i]), Ids(s[i + 1..]);
    } else {
      a, b := RemoveEachIds(s, x);
    }
  }

  lemma {:induction false} RemoveEachIds(s: seq<Item>, x: Id) returns (a: seq<Option<Id>>, b: seq<Option<Id>>)
    requires Unique(s) && Contains(s, x) && forall k | 0 <= k < |s| :: s[k].id != Some(x)
    ensures Ids(s) == a + Ids([Find(s, x).value]) + b
    ensures Ids(RemoveInEach(s, x).0) == a + b
    decreases s, 1
  {
    UniqueParts(s);
    OccSplit(s, x);
    UniqueOcc(s, x);
    if Contains(s[0].items, x) {
      a, b := RemoveEachIdsInHead(s, x);
    } else {
      a, b := RemoveEachIdsInTail(s, x);
    }
  }

  lemma {:induction false} RemoveEachIdsInHead(s: seq<Item>, x: Id) returns (a: seq<Option<Id>>, b: seq<Option<Id>>)
    requires s != [] && s[0].id != Some(x) && Unique(s[0].items) && Contains(s[0].items, x) && !Contains(s[1..], x)
    ensures Ids(s) == a + Ids([Find(s, x).value]) + b
    ensures Ids(RemoveInEach(s, x).0) == a + b
    decreases s, 0
  {
    var h := s[0];
    var hi := Remove(h.items, x).0;
    RemoveEachAbsent(s[1..], x);
    assert RemoveInEach(s, x).0 == [h.(items := hi)] + s[1..];
    assert Ids(RemoveInEach(s, x).0) == [h.id] + Ids(hi) + Ids(s[1..]) by {
      IdsConcat([h.(items := hi)], s[1..]);
      Single(h.(items := hi), None);
    }
    var a', b' := RemoveIds(h.items, x);
    assert Find(s, x) == Find(h.items, x);
    assert Ids(s) == [h.id] + Ids(h.items) + Ids(s[1..]);
    a, b := [h.id] + a', b' + Ids(s[1..]);
    assert Ids(hi) == a' + b';
    Assoc4([h.id], a', b', Ids(s[1..]));
    Assoc5([h.id], a', Ids([Find(s, x).value]), b', Ids(s[1..]));
  }

  lemma {:induction false} RemoveEachIdsInTail(s: seq<Item>, x: Id) returns (a: seq<Option<Id>>, b: seq<Option<Id>>)
    requires s != [] && s[0].id != Some(x) && !Contains(s[0].items, x) && Unique(s[1..]) && Contains(s[1..], x)
    requires forall k | 0 <= k < |s| :: s[k].id != Some(x)
    ensures Ids(s) == a + Ids([Find(s, x).value]) + b
    ensures Ids(RemoveInEach(s, x).0) == a + b
    decreases s, 0
  {
    var h := s[0];
    var rest := RemoveInEach(s[1..], x).0;
    var head := [h.id] + Ids(h.items);
    RemoveInTailIds(s, x);
    NoEntryTail(s, x);
    var a', b' := RemoveEachIds(s[1..], x);
    a, b := head + a', b';
    Assoc4(head, a', b', []);
    Assoc5(head, a', Ids([Find(s, x).value]), b', []);
    assert b' + [] == b';
  }

  lemma {:induction false} RemoveInTailIds(s: seq<Item>, x: Id)
    requires s != [] && !Contains(s[0].items, x) && s[0].id != Some(x)
    ensures Ids(RemoveInEach(s, x).0) == [s[0].id] + Ids(s[0].items) + Ids(RemoveInEach(s[1..], x).0)
    ensures Ids(s) == [s[0].id] + Ids(s[0].items) + Ids(s[1..])
    ensures Find(s, x) == Find(s[1..], x)
  {
    RemoveInTail(s, x);
    IdsConcat([s[0]], RemoveInEach(s[1..], x).0);
    Single(s[0], None);
  }

  /**
   * `removeItem` takes out the names of the block of `x` and keeps every
   * other name, in its order.
   */
  lemma {:induction false} RemoveNames(s: seq<Item>, x: Id) returns (a: seq<string>, b: seq<string>)
    requires Unique(s) && Contains(s, x)
    ensures Names(s) == a + Names([Find(s, x).value]) + b
    ensures Names(Remove(s, x).0) == a + b
    decreases s, 2
  {
    var i := IndexOf(s, x);
    if i >= 0 {
      ChildInNodes(s, i);
      FindNode(s, s[i]);
      SplitNames(s, i);
      a, b := Names(s[..i]), Names(s[i + 1..]);
    } else {
      a, b := RemoveEachNames(s, x);
    }
  }

  lemma {:induction false} RemoveEachNames(s: seq<Item>, x: Id) returns (a: seq<string>, b: seq<string>)
    requires Unique(s) && Contains(s, x) && forall k | 0 <= k < |s| :: s[k].id != Some(x)
    ensures Names(s) == a + Names([Find(s, x).value]) + b
    ensures Names(RemoveInEach(s, x).0) == a + b
    decreases s, 1
  {
    UniqueParts(s);
    OccSplit(s, x);
    UniqueOcc(s, x);
    if Contains(s[0].items, x) {
      a, b := RemoveEachNamesInHead(s, x);
    } else {
      a, b := RemoveEachNamesInTail(s, x);
    }
  }

  lemma {:induction false} RemoveEachNamesInHead(s: seq<Item>, x: Id) returns (a: seq<string>, b: seq<string>)
    requires s != [] && s[0].id != Some(x) && Unique(s[0].items) && Contains(s[0].items, x) && !Contains(s[1..], x)
    ensures Names(s) == a + Names([Find(s, x).value]) + b
    ensures Names(RemoveInEach(s, x).0) == a + b
    decreases s, 0
  {
    var h := s[0];
    var hi := Remove(h.items, x).0;
    RemoveEachAbsent(s[1..], x);
    assert RemoveInEach(s, x).0 == [h.(items := hi)] + s[1..];
    assert Names(RemoveInEach(s, x).0) == [h.name] + Names(hi) + Names(s[1..]) by {
      NamesConcat([h.(items := hi)], s[1..]);
      Single(h.(items := hi), None);
    }
    var a', b' := RemoveNames(h.items, x);
    assert Find(s, x) == Find(h.items, x);
    assert Names(s) == [h.name] + Names(h.items) + Names(s[1..]);
    a, b := [h.name] + a', b' + Names(s[1..]);
    assert Names(hi) == a' + b';
    Assoc4([h.name], a', b', Names(s[1..]));
    Assoc5([h.name], a', Names([Find(s, x).value]), b', Names(s[1..]));
  }

  lemma {:induction false} RemoveEachNamesInTail(s: seq<Item>, x: Id) returns (a: seq<string>, b: seq<string>)
    requires s != [] && s[0].id != Some(x) && !Contains(s[0].items, x) && Unique(s[1..]) && Contains(s[1..], x)
    requires forall k | 0 <= k < |s| :: s[k].id != Some(x)
    ensures Names(s) == a + Names([Find(s, x).value]) + b
    ensures Names(RemoveInEach(s, x).0) == a + b
    decreases s, 0
  {
    var head := [s[0].name] + Names(s[0].items);
    RemoveInTailNames(s, x);
    NoEntryTail(s, x);
    var a', b' := RemoveEachNames(s[1..], x);
    a, b := head + a', b';
    Assoc4(head, a', b', []);
    Assoc5(head, a', Names([Find(s, x).value]), b', []);
    assert b' + [] == b';
  }

  lemma {:induction false} RemoveInTailNames(s: seq<Item>, x: Id)
    requires s != [] && !Contains(s[0].items, x) && s[0].id != Some(x)
    ensures Names(RemoveInEach(s, x).0) == [s[0].name] + Names(s[0].items) + Names(RemoveInEach(s[1..], x).0)
    ensures Names(s) == [s[0].name] + Names(s[0].items) + Names(s[1..])
    ensures Find(s, x) == Find(s[1..], x)
  {
    RemoveInTail(s, x);
    NamesConcat([s[0]], RemoveInEach(s[1..], x).0);
    Single(s[0], None);
  }

  lemma {:induction false} RemoveInTailLinks(s: seq<Item>, x: Id, p: Option<Id>)
    requires s != [] && !Contains(s[0].items, x) && s[0].id != Some(x)
    ensures Links(RemoveInEach(s, x).0, p) == [(p, s[0].id)] + Links(s[0].items, s[0].id) + Links(RemoveInEach(s[1..], x).0, p)
    ensures Links(s, p) == [(p, s[0].id)] + Links(s[0].items, s[0].id) + Links(s[1..], p)
    ensures Find(s, x) == Find(s[1..], x)
  {
    RemoveInTail(s, x);
    LinksConcat([s[0]], RemoveInEach(s[1..], x).0, p);
    Single(s[0], p);
  }

  /** The children's pass of `removeItem` when `x` is not in the first subtree: only the later entries change. */
  lemma {:induction false} RemoveInTail(s: seq<Item>, x: Id)
    requires s != [] && !Contains(s[0].items, x)
    requires s[0].id != Some(x)
    ensures RemoveInEach(s, x).0 == [s[0]] + RemoveInEach(s[1..], x).0
    ensures Find(s, x) == Find(s[1..], x)
  {
    assert Remove(s[0].items, x).0 == s[0].items;
    assert s[0].(items := s[0].items) == s[0];
  }

  /**
   * The links after `removeItem`: the link of `x` to its parent (key `q`)
   * and the links inside its subtree are gone; every other link stays, in
   * its order.
   */
  lemma {:induction false} RemoveLinks(s: seq<Item>, x: Id, p: Option<Id>)
    returns (q: Option<Id>, a: seq<Link>, b: seq<Link>)
    requires Unique(s) && Contains(s, x)
    ensures Links(s, p) == a + Links([Find(s, x).value], q) + b
    ensures Links(Remove(s, x).0, p) == a + b
    decreases s, 2
  {
    var i := IndexOf(s, x);
    if i >= 0 {
      ChildInNodes(s, i);
      FindNode(s, s[i]);
      SplitAt(s, i, p);
      q, a, b := p, Links(s[..i], p), Links(s[i + 1..], p);
    } else {
      q, a, b := RemoveEachLinks(s, x, p);
    }
  }

  lemma {:induction false} RemoveEachLinks(s: seq<Item>, x: Id, p: Option<Id>)
    returns (q: Option<Id>, a: seq<Link>, b: seq<Link>)
    requires Unique(s) && Contains(s, x) && forall k | 0 <= k < |s| :: s[k].id != Some(x)
    ensures Links(s, p) == a + Links([Find(s, x).value], q) + b
    ensures Links(RemoveInEach(s, x).0, p) == a + b
    decreases s, 1
  {
    UniqueParts(s);
    OccSplit(s, x);
    UniqueOcc(s, x);
    if Contains(s[0].items, x) {
      q, a, b := RemoveEachLinksInHead(s, x, p);
    } else {
      q, a, b := RemoveEachLinksInTail(s, x, p);
    }
  }

  lemma {:induction false} RemoveEachLinksInHead(s: seq<Item>, x: Id, p: Option<Id>)
    returns (q: Option<Id>, a: seq<Link>, b: seq<Link>)
    requires s != [] && s[0].id != Some(x) && Unique(s[0].items) && Contains(s[0].items, x) && !Contains(s[1..], x)
    ensures Links(s, p) == a + Links([Find(s, x).value], q) + b
    ensures Links(RemoveInEach(s, x).0, p) == a + b
    decreases s, 0
  {
    var h := s[0];
    var hi := Remove(h.items, x).0;
    RemoveEachAbsent(s[1..], x);
    assert RemoveInEach(s, x).0 == [h.(items := hi)] + s[1..];
    var tail := Links(s[1..], p);
    assert Links(RemoveInEach(s, x).0, p) == [(p, h.id)] + Links(hi, h.id) + tail by {
      LinksConcat([h.(items := hi)], s[1..], p);
      Single(h.(items := hi), p);
    }
    var a', b';
    q, a', b' := RemoveLinks(h.items, x, h.id);
    assert Find(s, x) == Find(h.items, x);
    assert Links(s, p) == [(p, h.id)] + Links(h.items, h.id) + tail;
    a, b := [(p, h.id)] + a', b' + tail;
    assert Links(hi, h.id) == a' + b';
    Assoc4([(p, h.id)], a', b', tail);
    Assoc5([(p, h.id)], a', Links([Find(s, x).value], q), b', tail);
  }

  lemma {:induction false} RemoveEachLinksInTail(s: seq<Item>, x: Id, p: Option<Id>)
    returns (q: Option<Id>, a: seq<Link>, b: seq<Link>)
    requires s != [] && s[0].id != Some(x) && !Contains(s[0].items, x) && Unique(s[1..]) && Contains(s[1..], x)
    requires forall k | 0 <= k < |s| :: s[k].id != Some(x)
    ensures Links(s, p) == a + Links([Find(s, x).value], q) + b
    ensures Links(RemoveInEach(s, x).0, p) == a + b
    decreases s, 0
  {
    var h := s[0];
    var rest := RemoveInEach(s[1..], x).0;
    var head := [(p, h.id)] + Links(h.items, h.id);
    RemoveInTailLinks(s, x, p);
    NoEntryTail(s, x);
    var a', b';
    q, a', b' := RemoveEachLinks(s[1..], x, p);
    a, b := head + a', b';
    Assoc4(head, a', b', []);
    Assoc5(head, a', Links([Find(s, x).value], q), b', []);
    assert b' + [] == b';
  }

  lemma {:induction false} NoEntryTail(s: seq<Item>, x: Id)
    requires s != [] && forall k | 0 <= k < |s| :: s[k].id != Some(x)
    ensures forall k | 0 <= k < |s[1..]| :: s[1..][k].id != Some(x)
  {
    forall k | 0 <= k < |s[1..]| ensures s[1..][k].id != Some(x) {
      assert s[1..][k] == s[k + 1];
    }
  }

  /** The children's pass of `removeItem` changes nothing when `x` is absent. */
  lemma {:induction false} RemoveEachAbsent(s: seq<Item>, x: Id)
    requires !Contains(s, x)
    ensures RemoveInEach(s, x).0 == s
  {
    if s != [] {
      assert Ids(s) == [s[0].id] + Ids(s[0].items) + Ids(s[1..]);
      RemoveEachAbsent(s[1..], x);
    }
  }

  /**
   * `removeItem` of a word that is there: its whole subtree leaves the
   * forest, no word with id `x` is reachable any more, and the forest stays
   * unique.
   */
  lemma {:induction false} RemoveSubtree(s: seq<Item>, x: Id)
    requires Unique(s) && Contains(s, x)
    ensures multiset(Ids(Remove(s, x).0)) + multiset(Ids([Find(s, x).value])) == multiset(Ids(s))
    ensures Unique(Remove(s, x).0) && !Contains(Remove(s, x).0, x)
  {
    var n := Find(s, x).value;
    var a, b := RemoveIds(s, x);
    Single(n, None);
    UniqueSeqConcat(a + Ids([n]), b);
    UniqueSeqConcat(a, Ids([n]));
    UniqueSeqConcat(a, b);
    IdsConcatMs(a, Ids([n]), b);
    assert Some(x) in multiset(Ids([n]));
  }

  // ---------------------------------------------------------------------
  // moveItem
  // ---------------------------------------------------------------------

  /** `list.push(n)`, as a change of a list of sub-words. */
  function Append(n: Item): seq<Item> -> seq<Item>
  {
    l => l + [n]
  }

  /** The four cancel conditions of `moveItem`, in the order it tests them. */
  predicate MoveCancelled(s: seq<Item>, x: Id, t: Option<Id>)
    requires Contains(s, x) && (t.Some? ==> Contains(s, t.value))
  {
    || t == Some(x)
    || (t.Some? && Contains(Find(s, x).value.items, t.value))
    || (ParentOf(s, x).None? && t.None?)
    || (t.Some? && HasChild(Find(s, t.value).value.items, x))
  }

  /**
   * The relocation `moveItem` performs once no guard fired: the dragged
   * word is removed and pushed onto the target's list, or onto the root
   * list when there is no target.
   */
  function Relocated(s: seq<Item>, x: Id, t: Option<Id>): seq<Item>
    requires Contains(s, x)
  {
    var n := Find(s, x).value;
    var rest := Remove(s, x).0;
    if t.Some? then Edit(rest, t.value, Append(n)) else rest + [n]
  }

  /** `moveItem(x, t)`; `t == None` is a move to the root list. */
  function Moved(s: seq<Item>, x: Id, t: Option<Id>): seq<Item>
    requires Contains(s, x) && (t.Some? ==> Contains(s, t.value))
  {
    if MoveCancelled(s, x, t) then s else Relocated(s, x, t)
  }

  /**
   * A move keeps every word: the forest has the same ids as before, so it
   * stays unique — no word is lost, duplicated or made its own ancestor.
   */
  lemma {:induction false} MovePreserves(s: seq<Item>, x: Id, t: Option<Id>)
    requires Unique(s) && Contains(s, x) && (t.Some? ==> Contains(s, t.value))
    ensures multiset(Ids(Moved(s, x, t))) == multiset(Ids(s))
    ensures Unique(Moved(s, x, t))
  {
    if !MoveCancelled(s, x, t) {
      RelocatedIds(s, x, t);
    }
  }

  lemma {:induction false} RelocatedIds(s: seq<Item>, x: Id, t: Option<Id>)
    requires Unique(s) && Contains(s, x)
    requires t.Some? ==> Contains(s, t.value) && t != Some(x) && !Contains(Find(s, x).value.items, t.value)
    ensures multiset(Ids(Relocated(s, x, t))) == multiset(Ids(s))
  {
    RemoveSubtree(s, x);
    var n := Find(s, x).value;
    var rest := Remove(s, x).0;
    var ms, mr, mn := multiset(Ids(s)), multiset(Ids(rest)), multiset(Ids([n]));
    assert mr + mn == ms;
    if t.Some? {
      RestContainsTarget(s, x, t.value);
      PushIds(rest, t.value, n);
    } else {
      IdsConcat(rest, [n]);
    }
  }

  /** Pushing `n` onto the list of the word `t` adds exactly the ids of `n`'s block. */
  lemma {:induction false} PushIds(s: seq<Item>, t: Id, n: Item)
    requires Unique(s) && Contains(s, t)
    ensures multiset(Ids(Edit(s, t, Append(n)))) == multiset(Ids(s)) + multiset(Ids([n]))
  {
    UniqueOcc(s, t);
    EditIds(s, t, Append(n));
    var l := Find(s, t).value.items;
    assert Append(n)(l) == l + [n];
    IdsConcat(l, [n]);
    Cancel(multiset(Ids(Edit(s, t, Append(n)))), multiset(Ids(l)), multiset(Ids(s)), multiset(Ids([n])));
  }

  lemma {:induction false} Cancel<T>(e: multiset<T>, l: multiset<T>, r: multiset<T>, n: multiset<T>)
    requires e + l == r + (l + n)
    ensures e == r + n
  {
    forall v ensures e[v] == (r + n)[v] {
      assert (e + l)[v] == (r + (l + n))[v];
    }
  }

  /** A target outside the dragged subtree survives the removal. */
  lemma {:induction false} RestContainsTarget(s: seq<Item>, x: Id, t: Id)
    requires Unique(s) && Contains(s, x) && Contains(s, t)
    requires t != x && !Contains(Find(s, x).value.items, t)
    ensures Contains(Remove(s, x).0, t)
  {
    var n := Find(s, x).value;
    var a, b := RemoveIds(s, x);
    Single(n, None);
    assert Some(t) !in Ids([n]);
  }

  /**
   * The links after a move: the one link of `x` to its old parent `q` is
   * replaced by a link to the target (`None`: the root list), and every
   * other parent/child link is kept.
   */
  lemma {:induction false} MoveLinks(s: seq<Item>, x: Id, t: Option<Id>) returns (q: Option<Id>)
    requires Unique(s) && Contains(s, x) && (t.Some? ==> Contains(s, t.value))
    requires !MoveCancelled(s, x, t)
    ensures (q, Some(x)) in Links(s, None)
    ensures forall q' | (q', Some(x)) in Links(s, None) :: q' == q
    ensures multiset(Links(Moved(s, x, t), None)) + multiset{(q, Some(x))}
         == multiset(Links(s, None)) + multiset{(t, Some(x))}
  {
    assert Moved(s, x, t) == Relocated(s, x, t);
    q := RelocatedLinks(s, x, t);
    forall q' | (q', Some(x)) in Links(s, None) ensures q' == q {
      LinkOnce(s, None, q', q, x);
    }
  }

  lemma {:induction false} RelocatedLinks(s: seq<Item>, x: Id, t: Option<Id>) returns (q: Option<Id>)
    requires Unique(s) && Contains(s, x)
    requires t.Some? ==> Contains(s, t.value) && t != Some(x) && !Contains(Find(s, x).value.items, t.value)
    ensures (q, Some(x)) in Links(s, None)
    ensures multiset(Links(Relocated(s, x, t), None)) + multiset{(q, Some(x))}
         == multiset(Links(s, None)) + multiset{(t, Some(x))}
  {
    var n := Find(s, x).value;
    var rest := Remove(s, x).0;
    var a, b;
    q, a, b := RemoveLinks(s, x, None);
    var sub := Links(n.items, n.id);
    Single(n, q);
    BlockHead(a, (q, Some(x)), sub, b);
    var after := Links(Relocated(s, x, t), None);
    RelocatedAddsLinks(s, x, t, n, rest, a + b);
    SwapLinkMs(a, b, q, t, x, sub, after, Links(s, None));
  }

  lemma {:induction false} RelocatedAddsLinks(s: seq<Item>, x: Id, t: Option<Id>, n: Item, rest: seq<Item>, ab: seq<Link>)
    requires Unique(s) && Contains(s, x) && n == Find(s, x).value && rest == Remove(s, x).0
    requires t.Some? ==> Contains(s, t.value) && t != Some(x) && !Contains(n.items, t.value)
    requires Links(rest, None) == ab
    ensures multiset(Links(Relocated(s, x, t), None)) == multiset(ab) + multiset([(t, Some(x))] + Links(n.items, n.id))
  {
    Single(n, t);
    if t.Some? {
      RemoveSubtree(s, x);
      RestContainsTarget(s, x, t.value);
      PushLinks(rest, t.value, n);
    } else {
      LinksConcat(rest, [n], None);
    }
  }

  /** Pushing `n` onto the list of the word `t` adds the links of `n`'s block, keyed by `t`. */
  lemma {:induction false} PushLinks(s: seq<Item>, t: Id, n: Item)
    requires Unique(s) && Contains(s, t)
    ensures multiset(Links(Edit(s, t, Append(n)), None)) == multiset(Links(s, None)) + multiset(Links([n], Some(t)))
  {
    UniqueOcc(s, t);
    var a2, b2 := EditLinks(s, t, Append(n), None);
    var l := Find(s, t).value.items;
    assert Append(n)(l) == l + [n];
    LinksConcat(l, [n], Some(t));
    MovedLinksMs(a2, Links(l, Some(t)), Links([n], Some(t)), b2, Links(Edit(s, t, Append(n)), None), Links(s, None));
  }

  /**
   * The order after a move: in the preorder sequence of links, the block
   * of `x` (its link to its parent `q`, then its subtree's) is taken out
   * and put back with the target as parent; with the block taken out, the
   * sequences before and after are the same, so every other word keeps its
   * parent and its place.
   */
  lemma {:induction false} MoveFrame(s: seq<Item>, x: Id, t: Option<Id>)
    returns (q: Option<Id>, a: seq<Link>, b: seq<Link>, c: seq<Link>, d: seq<Link>)
    requires Unique(s) && Contains(s, x) && (t.Some? ==> Contains(s, t.value))
    requires !MoveCancelled(s, x, t)
    ensures Links(s, None) == a + Links([Find(s, x).value], q) + b
    ensures Links(Moved(s, x, t), None) == c + Links([Find(s, x).value], t) + d
    ensures a + b == c + d
  {
    var n := Find(s, x).value;
    var rest := Remove(s, x).0;
    assert Moved(s, x, t) == Created(rest, n, t);
    q, a, b := RemoveLinks(s, x, None);
    RemoveSubtree(s, x);
    if t.Some? {
      RestContainsTarget(s, x, t.value);
    }
    var a', b', c', d' := CreateFrame(rest, n, t);
    c, d := a' + Links(ListUnder(rest, t), t), b';
  }

  /**
   * The names after a move: with the names of `x`'s block taken out, the
   * preorder sequences of names before and after are the same.
   */
  lemma {:induction false} MoveNamesFrame(s: seq<Item>, x: Id, t: Option<Id>)
    returns (a: seq<string>, b: seq<string>, c: seq<string>, d: seq<string>)
    requires Unique(s) && Contains(s, x) && (t.Some? ==> Contains(s, t.value))
    requires !MoveCancelled(s, x, t)
    ensures Names(s) == a + Names([Find(s, x).value]) + b
    ensures Names(Moved(s, x, t)) == c + Names([Find(s, x).value]) + d
    ensures a + b == c + d
  {
    var n := Find(s, x).value;
    var rest := Remove(s, x).0;
    assert Moved(s, x, t) == Created(rest, n, t);
    a, b := RemoveNames(s, x);
    RemoveSubtree(s, x);
    if t.Some? {
      RestContainsTarget(s, x, t.value);
    }
    var a', b', c', d' := CreateFrame(rest, n, t);
    c, d := c' + Names(ListUnder(rest, t)), d';
  }

  /**
   * Where a move puts the word: its subtree travels with it unchanged, and
   * it is the last sub-word of the target, or the last root.
   */
  lemma {:induction false} MoveLands(s: seq<Item>, x: Id, t: Option<Id>)
    requires Unique(s) && Contains(s, x) && (t.Some? ==> Contains(s, t.value))
    requires !MoveCancelled(s, x, t)
    ensures Find(Moved(s, x, t), x) == Find(s, x)
    ensures t.Some? ==> (Contains(Moved(s, x, t), t.value) &&
      var l := Find(Moved(s, x, t), t.value).value.items;
      |l| > 0 && l[|l| - 1] == Find(s, x).value)
    ensures t.None? ==> |Moved(s, x, t)| > 0 && Moved(s, x, t)[|Moved(s, x, t)| - 1] == Find(s, x).value
  {
    var after := Moved(s, x, t);
    assert after == Relocated(s, x, t);
    MovePreserves(s, x, t);
    RemoveSubtree(s, x);
    if t.Some? {
      RestContainsTarget(s, x, t.value);
      PushLands(Remove(s, x).0, t.value, Find(s, x).value);
    } else {
      ChildInNodes(after, |after| - 1);
    }
    FindNode(after, Find(s, x).value);
  }

  /** After `push(n)` onto the word `t`, `n` is its last sub-word and a word of the forest. */
  lemma {:induction false} PushLands(s: seq<Item>, t: Id, n: Item)
    requires Unique(s) && Contains(s, t)
    ensures Contains(Edit(s, t, Append(n)), t)
    ensures var l := Find(Edit(s, t, Append(n)), t).value.items; |l| > 0 && l[|l| - 1] == n
    ensures n in Nodes(Edit(s, t, Append(n)))
  {
    var after := Edit(s, t, Append(n));
    UniqueOcc(s, t);
    EditFind(s, t, Append(n));
    var l := Find(s, t).value.items;
    assert Append(n)(l) == l + [n];
    var tn := Find(after, t).value;
    assert tn.items == l + [n];
    FindInNodes(after, t);
    assert tn.items[|l|] == n;
    NodesClosed(after, tn, n);
  }

  /**
   * Repeating a move changes nothing: after a successful move the word is
   * the target's child (or a root), so a guard of `moveItem` fires.
   */
  lemma {:induction false} MoveTwice(s: seq<Item>, x: Id, t: Option<Id>)
    requires Unique(s) && Contains(s, x) && (t.Some? ==> Contains(s, t.value))
    ensures Contains(Moved(s, x, t), x) && (t.Some? ==> Contains(Moved(s, x, t), t.value))
    ensures Moved(Moved(s, x, t), x, t) == Moved(s, x, t)
  {
    var after := Moved(s, x, t);
    MovePreserves(s, x, t);
    assert Contains(after, x) && (t.Some? ==> Contains(after, t.value)) by {
      assert Some(x) in multiset(Ids(s));
      assert t.Some? ==> Some(t.value) in multiset(Ids(s));
    }
    if !MoveCancelled(s, x, t) {
      MoveLands(s, x, t);
      if t.Some? {
        var l := Find(after, t.value).value.items;
        assert l[|l| - 1].id == Some(x);
        assert HasChild(l, x);
      } else {
        assert after[|after| - 1].id == Some(x);
        assert HasChild(after, x);
        RootNoParent(after, x);
      }
    }
  }

  /**
   * Why `moveItem` refuses a target inside the dragged subtree (the word
   * itself included): the relocation would remove the target along with
   * the dragged word, push it nowhere, and the whole subtree would vanish.
   */
  lemma {:induction false} CycleGuardNeeded(s: seq<Item>, x: Id, t: Id)
    requires Unique(s) && Contains(s, x) && Contains([Find(s, x).value], t)
    ensures Relocated(s, x, Some(t)) == Remove(s, x).0
    ensures |Ids(Relocated(s, x, Some(t)))| < |Ids(s)|
  {
    var n := Find(s, x).value;
    var rest := Remove(s, x).0;
    RemoveSubtree(s, x);
    assert Some(t) in multiset(Ids([n]));
    assert Some(t) in multiset(Ids(s));
    assert !Contains(rest, t);
    EditAbsent(rest, t, Append(n));
    assert |multiset(Ids(rest))| < |multiset(Ids(s))|;
  }

  lemma {:induction false} MovedLinksMs(a2: seq<Link>, ll: seq<Link>, m: seq<Link>, b2: seq<Link>, after: seq<Link>, rest: seq<Link>)
    requires rest == a2 + ll + b2 && after == a2 + (ll + m) + b2
    ensures multiset(after) == multiset(rest) + multiset(m)
  {
  }

  lemma {:induction false} BlockHead<T>(a: seq<T>, h: T, sub: seq<T>, b: seq<T>)
    ensures a + ([h] + sub) + b == a + [h] + sub + b
    ensures (a + ([h] + sub) + b)[|a|] == h
  {
  }

  lemma {:induction false} SwapLinkMs(a: seq<Link>, b: seq<Link>, q: Option<Id>, t: Option<Id>, x: Id, sub: seq<Link>,
                   after: seq<Link>, before: seq<Link>)
    requires before == a + [(q, Some(x))] + sub + b
    requires multiset(after) == multiset(a + b) + multiset([(t, Some(x))] + sub)
    ensures multiset(after) + multiset{(q, Some(x))} == multiset(before) + multiset{(t, Some(x))}
  {
  }

  // ---------------------------------------------------------------------
  // orderItem and switchItem
  // ---------------------------------------------------------------------

  /** The key of the word's parent, as `Links` records it: `None` for a root (or an absent word). */
  function ParentKey(s: seq<Item>, x: Id): Option<Id>
  {
    match ParentOf(s, x)
    case None => None
    case Some(p) => p.id
  }

  /** The list a word sits in: its parent's `items`, or the root list. */
  function SiblingsOf(s: seq<Item>, x: Id): seq<Item>
  {
    ListOf(s, ParentOf(s, x))
  }

  /** `parent ? parent.items : items`: the list under `parent`, or the root list. */
  function ListOf(s: seq<Item>, parent: Option<Item>): seq<Item>
  {
    if parent.Some? then parent.value.items else s
  }

  /** `newIndex` after the two clamping steps of `orderItem`. */
  function Clamp(v: int, len: nat): (r: int)
    requires len > 0
    ensures 0 <= r < len
    ensures 0 <= v < len ==> r == v
    ensures v < 0 ==> r == 0
    ensures v >= len ==> r == len - 1
  {
    var w := if v < 0 then 0 else v;
    if w >= len then len - 1 else w
  }

  /** Both indices lie in `l` and differ: the two splices move something. */
  predicate Moves(l: seq<Item>, i: int, j: int)
  {
    0 <= i < |l| && 0 <= j < |l| && i != j
  }

  /** `splice(i, 1)` followed by `splice(j, 0, l[i])`. */
  function MoveWithin(l: seq<Item>, i: nat, j: nat): seq<Item>
    requires i < |l| && j < |l|
  {
    var w := l[..i] + l[i + 1..];
    w[..j] + [l[i]] + w[j..]
  }

  /**
   * The two splices leave a permutation of the list, with the moved entry
   * at index `j` and the other entries in their original order.
   */
  lemma {:induction false} MoveWithinSpec(l: seq<Item>, i: nat, j: nat)
    requires i < |l| && j < |l|
    ensures |MoveWithin(l, i, j)| == |l|
    ensures MoveWithin(l, i, j)[j] == l[i]
    ensures MoveWithin(l, i, j)[..j] + MoveWithin(l, i, j)[j + 1..] == l[..i] + l[i + 1..]
    ensures multiset(MoveWithin(l, i, j)) == multiset(l)
    ensures i == j ==> MoveWithin(l, i, j) == l
  {
    var w := l[..i] + l[i + 1..];
    var r := MoveWithin(l, i, j);
    assert r[..j] == w[..j] && r[j + 1..] == w[j..];
    assert w == w[..j] + w[j..];
    assert l == l[..i] + [l[i]] + l[i + 1..];
    PermBlocks(l[..i], [l[i]], l[i + 1..], w[..j], w[j..], l, w, r);
    if i == j {
      assert w[..j] == l[..i] && w[j..] == l[i + 1..];
    }
  }

  /** Taking a block out of a sequence and putting it back elsewhere permutes the sequence. */
  lemma {:induction false} PermBlocks<T>(a: seq<T>, e: seq<T>, b: seq<T>, c: seq<T>, d: seq<T>, l: seq<T>, w: seq<T>, r: seq<T>)
    requires l == a + e + b && w == a + b && w == c + d && r == c + e + d
    ensures multiset(r) == multiset(l)
  {
    assert multiset(w) == multiset(a) + multiset(b) == multiset(c) + multiset(d);
    assert multiset(l) == multiset(a) + multiset(e) + multiset(b);
    assert multiset(r) == multiset(c) + multiset(e) + multiset(d);
    forall v ensures multiset(r)[v] == multiset(l)[v] {
      assert multiset(w)[v] == multiset(a)[v] + multiset(b)[v] == multiset(c)[v] + multiset(d)[v];
    }
  }

  /** The two splices keep the ids and the links of the list. */
  lemma {:induction false} MoveWithinKeeps(l: seq<Item>, i: nat, j: nat, p: Option<Id>)
    requires i < |l| && j < |l|
    ensures multiset(Ids(MoveWithin(l, i, j))) == multiset(Ids(l))
    ensures multiset(Links(MoveWithin(l, i, j), p)) == multiset(Links(l, p))
  {
    var w := l[..i] + l[i + 1..];
    var r := MoveWithin(l, i, j);
    SplitAt(l, i, p);
    assert w == w[..j] + w[j..];
    assert r == w[..j] + [l[i]] + w[j..];
    MoveWithinIds(l, i, w, r);
    MoveWithinLinks(l, i, w, r, p);
  }

  lemma {:induction false} MoveWithinIds(l: seq<Item>, i: nat, w: seq<Item>, r: seq<Item>)
    requires i < |l| && w == l[..i] + l[i + 1..]
    requires Ids(l) == Ids(l[..i]) + Ids([l[i]]) + Ids(l[i + 1..])
    requires Ids(w) == Ids(l[..i]) + Ids(l[i + 1..])
    requires exists j | 0 <= j <= |w| :: w == w[..j] + w[j..] && r == w[..j] + [l[i]] + w[j..]
    ensures multiset(Ids(r)) == multiset(Ids(l))
  {
    var j :| 0 <= j <= |w| && w == w[..j] + w[j..] && r == w[..j] + [l[i]] + w[j..];
    IdsConcat(w[..j], w[j..]);
    IdsConcat(w[..j] + [l[i]], w[j..]);
    IdsConcat(w[..j], [l[i]]);
    PermBlocks(Ids(l[..i]), Ids([l[i]]), Ids(l[i + 1..]), Ids(w[..j]), Ids(w[j..]), Ids(l), Ids(w), Ids(r));
  }

  lemma {:induction false} MoveWithinLinks(l: seq<Item>, i: nat, w: seq<Item>, r: seq<Item>, p: Option<Id>)
    requires i < |l| && w == l[..i] + l[i + 1..]
    requires Links(l, p) == Links(l[..i], p) + Links([l[i]], p) + Links(l[i + 1..], p)
    requires Links(w, p) == Links(l[..i], p) + Links(l[i + 1..], p)
    requires exists j | 0 <= j <= |w| :: w == w[..j] + w[j..] && r == w[..j] + [l[i]] + w[j..]
    ensures multiset(Links(r, p)) == multiset(Links(l, p))
  {
    var j :| 0 <= j <= |w| && w == w[..j] + w[j..] && r == w[..j] + [l[i]] + w[j..];
    LinksConcat(w[..j], w[j..], p);
    LinksConcat(w[..j] + [l[i]], w[j..], p);
    LinksConcat(w[..j], [l[i]], p);
    PermBlocks(Links(l[..i], p), Links([l[i]], p), Links(l[i + 1..], p), Links(w[..j], p), Links(w[j..], p),
               Links(l, p), Links(w, p), Links(r, p));
  }

  /** `_ => l`: the list written back through the parent's `items`. */
  function Replace(l: seq<Item>): seq<Item> -> seq<Item>
  {
    _ => l
  }

  /** `u` carries an id, and is the one word of `s` with that id. */
  predicate IsWord(s: seq<Item>, u: Item)
  {
    u.id.Some? && Occ(s, u.id.value) == 1 && Find(s, u.id.value) == Some(u)
  }

  /** The parent found by `findParent` in a unique forest carries an id, and is the word with it. */
  lemma {:induction false} ParentHasId(s: seq<Item>, x: Id)
    requires Unique(s) && ParentOf(s, x).Some?
    ensures IsWord(s, ParentOf(s, x).value)
  {
    ParentOfSpec(s, x);
    FindNode(s, ParentOf(s, x).value);
    UniqueOcc(s, ParentOf(s, x).value.id.value);
  }

  /**
   * `orderItem(x, k)`: `x` moves `k` places within its own list, the new
   * index clamped to the list; a clamped index equal to the old one, or an
   * `x` that is not found, leaves the forest as it was.
   */
  function Reordered(s: seq<Item>, x: Id, k: int): seq<Item>
  {
    ReorderUnder(s, ParentOf(s, x), x, k)
  }

  /** `orderItem` once `findParent` has answered `parent`. */
  function ReorderUnder(s: seq<Item>, parent: Option<Item>, x: Id, k: int): seq<Item>
  {
    var from := ListOf(s, parent);
    var index := IndexOf(from, x);
    if index < 0 then s else ReorderAt(s, parent, from, index, Clamp(index + k, |from|))
  }

  /** `orderItem` once the old index and the clamped new index are known. */
  function ReorderAt(s: seq<Item>, parent: Option<Item>, from: seq<Item>, index: nat, j: nat): seq<Item>
    requires index < |from| && j < |from|
  {
    if j == index then s else WriteBack(s, parent, MoveWithin(from, index, j))
  }

  /**
   * The spliced list in its place: through the parent's `items` (a parent
   * found in a unique forest always has an id), or as the new root list.
   */
  function WriteBack(s: seq<Item>, parent: Option<Item>, l: seq<Item>): seq<Item>
  {
    match parent
    case None => l
    case Some(p) => if p.id.Some? then Edit(s, p.id.value, Replace(l)) else s
  }

  /** In a unique forest the word with `x` among its entries is the one `findParent` returns. */
  lemma {:induction false} ParentUnique(s: seq<Item>, x: Id, u: Item)
    requires Unique(s) && u in Nodes(s) && HasChild(u.items, x)
    ensures ParentOf(s, x) == Some(u)
  {
    var k := IndexOf(u.items, x);
    ChildLink(s, None, u, k);
    NodeIdIn(s, u);
    assert u.id in multiset(Ids(s));
    if HasChild(s, x) {
      TopLink(s, None, IndexOf(s, x));
      LinkOnce(s, None, u.id, None, x);
      assert false;
    }
    NodesClosed(s, u, u.items[k]);
    NodeIdIn(s, u.items[k]);
    NestedHasParent(s, x);
    ParentOfSpec(s, x);
    var w := ParentOf(s, x).value;
    ChildLink(s, None, w, IndexOf(w.items, x));
    LinkOnce(s, None, u.id, w.id, x);
    FindNode(s, u);
    FindNode(s, w);
  }

  /** A present word is an entry of its own list. */
  lemma {:induction false} InSiblings(s: seq<Item>, x: Id)
    requires Unique(s) && Contains(s, x)
    ensures HasChild(SiblingsOf(s, x), x)
  {
    ParentOfRoot(s, x);
  }

  /**
   * `orderItem` keeps every word and every parent/child link: no word
   * changes parent, and the forest stays unique.
   */
  lemma {:induction false} ReorderKeeps(s: seq<Item>, x: Id, k: int)
    requires Unique(s)
    ensures multiset(Ids(Reordered(s, x, k))) == multiset(Ids(s))
    ensures multiset(Links(Reordered(s, x, k), None)) == multiset(Links(s, None))
    ensures Unique(Reordered(s, x, k))
  {
    var after := Reordered(s, x, k);
    var i, j := ReorderShape(s, x, k);
    if after != s {
      if ParentOf(s, x).Some? {
        ParentHasId(s, x);
      }
      WriteBackKeeps(s, ParentOf(s, x), i, j, after);
    }
  }

  /** `orderItem` either changes nothing or writes back the two-splice rearrangement of the word's list. */
  lemma {:induction false} ReorderShape(s: seq<Item>, x: Id, k: int) returns (i: int, j: int)
    ensures Reordered(s, x, k) == s
         || (Moves(SiblingsOf(s, x), i, j) && Reordered(s, x, k) == WriteBack(s, ParentOf(s, x), MoveWithin(SiblingsOf(s, x), i, j)))
  {
    ReorderedUnder(s, x, k);
    ReorderUnderAt(s, ParentOf(s, x), x, k);
    i := IndexOf(SiblingsOf(s, x), x);
    j := if i < 0 then 0 else Clamp(i + k, |SiblingsOf(s, x)|);
  }

  /** Writing back a rearranged list, under a word with an id or at the root, keeps the ids and the links. */
  lemma {:induction false} WriteBackKeeps(s: seq<Item>, p: Option<Item>, i: int, j: int, after: seq<Item>)
    requires p.Some? ==> IsWord(s, p.value)
    requires Moves(ListOf(s, p), i, j) && after == WriteBack(s, p, MoveWithin(ListOf(s, p), i, j))
    ensures multiset(Ids(after)) == multiset(Ids(s))
    ensures multiset(Links(after, None)) == multiset(Links(s, None))
  {
    match p
    case None =>
      MoveWithinKeeps(s, i, j, None);
    case Some(u) =>
      MovedUnderKeeps(s, u, i, j, after);
  }

  /** The case of `orderItem` in which something moves under the word `u`. */
  lemma {:induction false} MovedUnderKeeps(s: seq<Item>, u: Item, i: nat, j: nat, after: seq<Item>)
    requires IsWord(s, u) && Moves(u.items, i, j) && after == Edit(s, u.id.value, Replace(MoveWithin(u.items, i, j)))
    ensures multiset(Ids(after)) == multiset(Ids(s))
    ensures multiset(Links(after, None)) == multiset(Links(s, None))
  {
    MoveWithinKeeps(u.items, i, j, u.id);
    ReplaceKeeps(s, u.id.value, MoveWithin(u.items, i, j));
  }

  lemma {:induction false} ReorderedUnder(s: seq<Item>, x: Id, k: int)
    ensures Reordered(s, x, k) == ReorderUnder(s, ParentOf(s, x), x, k)
  {
  }

  /** `orderItem` once `findParent` has answered: `x` absent from the list, or found and moved. */
  lemma {:induction false} ReorderUnderAt(s: seq<Item>, parent: Option<Item>, x: Id, k: int)
    ensures 0 <= IndexOf(ListOf(s, parent), x) ==>
      ReorderUnder(s, parent, x, k)
        == ReorderAt(s, parent, ListOf(s, parent), IndexOf(ListOf(s, parent), x),
                     Clamp(IndexOf(ListOf(s, parent), x) + k, |ListOf(s, parent)|))
    ensures IndexOf(ListOf(s, parent), x) < 0 ==> ReorderUnder(s, parent, x, k) == s
  {
  }

  /**
   * Writing back, through the word `t`, a list with the same ids and links
   * as its old one keeps the forest's ids and links.
   */
  lemma {:induction false} ReplaceKeeps(s: seq<Item>, t: Id, moved: seq<Item>)
    requires Occ(s, t) == 1
    requires Find(s, t).Some? && multiset(Ids(moved)) == multiset(Ids(Find(s, t).value.items))
    requires multiset(Links(moved, Some(t))) == multiset(Links(Find(s, t).value.items, Some(t)))
    ensures multiset(Ids(Edit(s, t, Replace(moved)))) == multiset(Ids(s))
    ensures multiset(Links(Edit(s, t, Replace(moved)), None)) == multiset(Links(s, None))
  {
    var from := Find(s, t).value.items;
    assert Replace(moved)(from) == moved;
    EditIds(s, t, Replace(moved));
    var a, b := EditLinks(s, t, Replace(moved), None);
    Cancel(multiset(Ids(Edit(s, t, Replace(moved)))), multiset(Ids(from)), multiset(Ids(s)), multiset{});
    assert multiset(a + Links(moved, Some(t)) + b) == multiset(a + Links(from, Some(t)) + b);
  }

  /**
   * Where `orderItem` puts the word: its list afterwards is the two-splice
   * rearrangement of its list before, with `x` at the clamped index.
   */
  lemma {:induction false} ReorderSiblings(s: seq<Item>, x: Id, k: int)
    requires Unique(s) && Contains(s, x)
    ensures 0 <= IndexOf(SiblingsOf(s, x), x)
    ensures SiblingsOf(Reordered(s, x, k), x)
         == MoveWithin(SiblingsOf(s, x), IndexOf(SiblingsOf(s, x), x), Clamp(IndexOf(SiblingsOf(s, x), x) + k, |SiblingsOf(s, x)|))
  {
    InSiblings(s, x);
    ReorderedFound(s, x, k);
    ReorderAtSiblings(s, x, k, Reordered(s, x, k));
  }

  /** `orderItem` leaves the word under the same parent (or a root). */
  lemma {:induction false} ReorderParent(s: seq<Item>, x: Id, k: int)
    requires Unique(s) && Contains(s, x)
    ensures ParentKey(Reordered(s, x, k), x) == ParentKey(s, x)
  {
    InSiblings(s, x);
    ReorderedFound(s, x, k);
    ReorderAtSiblings(s, x, k, Reordered(s, x, k));
  }

  /**
   * `orderItem` changes nothing but the word's own list: in the preorder
   * sequences of links and of names, only the block of that list changes,
   * into the block of its two-splice rearrangement.
   */
  lemma {:induction false} ReorderFrame(s: seq<Item>, x: Id, k: int)
    returns (a: seq<Link>, b: seq<Link>, c: seq<string>, d: seq<string>)
    requires Unique(s) && Contains(s, x)
    ensures 0 <= IndexOf(SiblingsOf(s, x), x)
    ensures Links(s, None) == a + Links(SiblingsOf(s, x), ParentKey(s, x)) + b
    ensures Links(Reordered(s, x, k), None)
         == a + Links(MoveWithin(SiblingsOf(s, x), IndexOf(SiblingsOf(s, x), x),
                                 Clamp(IndexOf(SiblingsOf(s, x), x) + k, |SiblingsOf(s, x)|)), ParentKey(s, x)) + b
    ensures Names(s) == c + Names(SiblingsOf(s, x)) + d
    ensures Names(Reordered(s, x, k))
         == c + Names(MoveWithin(SiblingsOf(s, x), IndexOf(SiblingsOf(s, x), x),
                                 Clamp(IndexOf(SiblingsOf(s, x), x) + k, |SiblingsOf(s, x)|))) + d
  {
    InSiblings(s, x);
    var p := ParentOf(s, x);
    var l := SiblingsOf(s, x);
    var i := IndexOf(l, x);
    var j := Clamp(i + k, |l|);
    ReorderedFound(s, x, k);
    if p.Some? {
      ParentHasId(s, x);
    }
    a, b, c, d := ReorderAtFrame(s, p, l, i, j, ParentKey(s, x), Reordered(s, x, k));
  }

  /** `orderItem` once the indices are known: only the block of the list changes, or nothing does. */
  lemma {:induction false} ReorderAtFrame(s: seq<Item>, p: Option<Item>, l: seq<Item>, i: nat, j: nat, key: Option<Id>, after: seq<Item>)
    returns (a: seq<Link>, b: seq<Link>, c: seq<string>, d: seq<string>)
    requires p.Some? ==> IsWord(s, p.value)
    requires key == if p.Some? then p.value.id else None
    requires l == ListOf(s, p) && i < |l| && j < |l| && after == ReorderAt(s, p, l, i, j)
    ensures Links(s, None) == a + Links(l, key) + b
    ensures Links(after, None) == a + Links(MoveWithin(l, i, j), key) + b
    ensures Names(s) == c + Names(l) + d
    ensures Names(after) == c + Names(MoveWithin(l, i, j)) + d
  {
    a, b, c, d := WriteBackFrame(s, p, MoveWithin(l, i, j), key);
    if j == i {
      MoveWithinSpec(l, i, j);
      assert after == s;
    } else {
      assert after == WriteBack(s, p, MoveWithin(l, i, j));
    }
  }

  /** Writing a list back through `p` (or as the root list) replaces only that list's block. */
  lemma {:induction false} WriteBackFrame(s: seq<Item>, p: Option<Item>, l: seq<Item>, key: Option<Id>)
    returns (a: seq<Link>, b: seq<Link>, c: seq<string>, d: seq<string>)
    requires p.Some? ==> IsWord(s, p.value)
    requires key == if p.Some? then p.value.id else None
    ensures Links(s, None) == a + Links(ListOf(s, p), key) + b
    ensures Links(WriteBack(s, p, l), None) == a + Links(l, key) + b
    ensures Names(s) == c + Names(ListOf(s, p)) + d
    ensures Names(WriteBack(s, p, l)) == c + Names(l) + d
  {
    match p
    case None =>
      a, b, c, d := [], [], [], [];
      assert Links(s, None) == a + Links(s, None) + b;
      assert Links(l, None) == a + Links(l, None) + b;
      assert Names(s) == c + Names(s) + d;
      assert Names(l) == c + Names(l) + d;
    case Some(u) =>
      a, b := EditLinks(s, u.id.value, Replace(l), None);
      c, d := EditNames(s, u.id.value, Replace(l));
      assert Replace(l)(u.items) == l;
  }

  /** `orderItem` of a present word: the two splices at its index and at the clamped index. */
  lemma {:induction false} ReorderedFound(s: seq<Item>, x: Id, k: int)
    requires HasChild(SiblingsOf(s, x), x)
    ensures Reordered(s, x, k)
         == ReorderAt(s, ParentOf(s, x), SiblingsOf(s, x), IndexOf(SiblingsOf(s, x), x),
                      Clamp(IndexOf(SiblingsOf(s, x), x) + k, |SiblingsOf(s, x)|))
  {
    var p := ParentOf(s, x);
    assert SiblingsOf(s, x) == ListOf(s, p);
    ReorderedUnder(s, x, k);
    ReorderUnderAt(s, p, x, k);
  }

  /** The two splices within the word's own list, under a parent or at the root. */
  lemma {:induction false} ReorderAtSiblings(s: seq<Item>, x: Id, k: int, after: seq<Item>)
    requires Unique(s) && HasChild(SiblingsOf(s, x), x)
    requires after == ReorderAt(s, ParentOf(s, x), SiblingsOf(s, x), IndexOf(SiblingsOf(s, x), x),
                                Clamp(IndexOf(SiblingsOf(s, x), x) + k, |SiblingsOf(s, x)|))
    ensures SiblingsOf(after, x)
         == MoveWithin(SiblingsOf(s, x), IndexOf(SiblingsOf(s, x), x), Clamp(IndexOf(SiblingsOf(s, x), x) + k, |SiblingsOf(s, x)|))
    ensures ParentKey(after, x) == ParentKey(s, x)
  {
    var from := SiblingsOf(s, x);
    var index := IndexOf(from, x);
    var j := Clamp(index + k, |from|);
    match ParentOf(s, x)
    case Some(u) =>
      assert from == u.items;
      assert after == ReorderAt(s, Some(u), u.items, index, j);
      ReorderAtUnder(s, u, x, index, j, after);
    case None =>
      assert from == s;
      assert after == ReorderAt(s, None, s, index, j);
      ReorderAtTop(s, x, index, j, after);
  }

  /** Rearranging the root list, or leaving it as it is when the index does not change. */
  lemma {:induction false} ReorderAtTop(s: seq<Item>, x: Id, index: nat, j: nat, after: seq<Item>)
    requires Unique(s) && ParentOf(s, x).None? && index < |s| && j < |s| && s[index].id == Some(x)
    requires after == ReorderAt(s, None, s, index, j)
    ensures ParentKey(after, x) == None
    ensures SiblingsOf(after, x) == MoveWithin(s, index, j)
  {
    MoveWithinSpec(s, index, j);
    if j == index {
      assert after == s;
    } else {
      ReorderAtRoot(s, x, index, j, after);
    }
  }

  /** Rearranging the list of the word `u`, or leaving it as it is when the index does not change. */
  lemma {:induction false} ReorderAtUnder(s: seq<Item>, u: Item, x: Id, index: nat, j: nat, after: seq<Item>)
    requires Unique(s) && ParentOf(s, x) == Some(u)
    requires index < |u.items| && j < |u.items| && u.items[index].id == Some(x)
    requires after == ReorderAt(s, Some(u), u.items, index, j)
    ensures SiblingsOf(after, x) == MoveWithin(u.items, index, j)
    ensures ParentKey(after, x) == u.id
  {
    ParentHasId(s, x);
    MoveWithinSpec(u.items, index, j);
    if j == index {
      assert after == s;
    } else {
      ReorderAtPlaces(s, u, x, index, j, after);
    }
  }

  /** In the root list, the rearranged list is the new root list and `x` stays a root. */
  lemma {:induction false} ReorderAtRoot(s: seq<Item>, x: Id, index: nat, j: nat, after: seq<Item>)
    requires Unique(s) && Moves(s, index, j) && s[index].id == Some(x)
    requires after == ReorderAt(s, None, s, index, j)
    ensures ParentOf(after, x).None?
    ensures SiblingsOf(after, x) == MoveWithin(s, index, j)
  {
    MoveWithinSpec(s, index, j);
    MoveWithinKeeps(s, index, j, None);
    assert Unique(after);
    assert after[j].id == Some(x);
    RootNoParent(after, x);
  }

  /** Under the word `u`, the rearranged list is written back into `u`, which stays `x`'s parent. */
  lemma {:induction false} ReorderAtPlaces(s: seq<Item>, u: Item, x: Id, index: nat, j: nat, after: seq<Item>)
    requires Unique(s) && IsWord(s, u) && Moves(u.items, index, j) && u.items[index].id == Some(x)
    requires after == ReorderAt(s, Some(u), u.items, index, j)
    ensures ParentOf(after, x) == Some(u.(items := MoveWithin(u.items, index, j)))
    ensures SiblingsOf(after, x) == MoveWithin(u.items, index, j)
  {
    var pid := u.id.value;
    var moved := MoveWithin(u.items, index, j);
    assert after == Edit(s, pid, Replace(moved));
    MovedUnderKeeps(s, u, index, j, after);
    assert Unique(after);
    assert Contains(after, pid) by {
      assert Some(pid) in multiset(Ids(s));
    }
    MoveWithinSpec(u.items, index, j);
    EditFind(s, pid, Replace(moved));
    assert Replace(moved)(u.items) == moved;
    FindInNodes(after, pid);
    assert moved[j].id == Some(x);
    ParentUnique(after, x, u.(items := moved));
  }

  /** `orderItem` with offset 0, or of a word that is not there, changes nothing. */
  lemma {:induction false} ReorderNoOp(s: seq<Item>, x: Id, k: int)
    requires Unique(s) && (k == 0 || !Contains(s, x))
    ensures Reordered(s, x, k) == s
  {
    if !Contains(s, x) {
      ParentOfSpec(s, x);
      if ParentOf(s, x).Some? {
        var u := ParentOf(s, x).value;
        var c := IndexOf(u.items, x);
        NodesClosed(s, u, u.items[c]);
        NodeIdIn(s, u.items[c]);
      }
      if IndexOf(s, x) >= 0 {
        IdAtIn(s, IndexOf(s, x));
      }
    }
  }

  /** A clamped index equal to the old one leaves the forest as it was. */
  lemma {:induction false} ReorderSameIndex(s: seq<Item>, x: Id, k: int)
    requires HasChild(SiblingsOf(s, x), x)
    requires Clamp(IndexOf(SiblingsOf(s, x), x) + k, |SiblingsOf(s, x)|) == IndexOf(SiblingsOf(s, x), x)
    ensures Reordered(s, x, k) == s
  {
    ReorderedFound(s, x, k);
  }

  /**
   * The offset `switchItem` hands to `orderItem`, or `None` when the two
   * words have different parents (both roots counting as the same).
   */
  function SwitchOffset(s: seq<Item>, dragged: Id, drop: Id, dy: int): Option<int>
  {
    var dp := ParentOf(s, dragged);
    var tp := ParentOf(s, drop);
    if dp == tp then Some(OffsetIn(ListOf(s, tp), dragged, drop, dy)) else None
  }

  /** The offset from the two indices in the shared list: asymmetric in the sign of `dy`. */
  function OffsetIn(list: seq<Item>, dragged: Id, drop: Id, dy: int): int
  {
    var i := IndexOf(list, dragged);
    var j := IndexOf(list, drop);
    if dy < 0 then j - i else i + j
  }

  /** `switchItem(movement, dragged, drop)`, with `dy` for `movement.y`. */
  function Switched(s: seq<Item>, dragged: Id, drop: Id, dy: int): seq<Item>
  {
    match SwitchOffset(s, dragged, drop, dy)
    case None => s
    case Some(offset) => Reordered(s, dragged, offset)
  }

  /**
   * `switchItem` between words with different parents changes nothing, and
   * in every case it keeps every word and every parent/child link.
   */
  lemma {:induction false} SwitchKeeps(s: seq<Item>, dragged: Id, drop: Id, dy: int)
    requires Unique(s)
    ensures ParentOf(s, dragged) != ParentOf(s, drop) ==> Switched(s, dragged, drop, dy) == s
    ensures multiset(Ids(Switched(s, dragged, drop, dy))) == multiset(Ids(s))
    ensures multiset(Links(Switched(s, dragged, drop, dy), None)) == multiset(Links(s, None))
    ensures Unique(Switched(s, dragged, drop, dy))
  {
    if SwitchOffset(s, dragged, drop, dy).Some? {
      ReorderKeeps(s, dragged, SwitchOffset(s, dragged, drop, dy).value);
    }
  }

  /**
   * Dragging upwards onto a sibling puts the dragged word at the index the
   * drop target had; the other siblings keep their order.
   */
  lemma {:induction false} SwitchUp(s: seq<Item>, dragged: Id, drop: Id, dy: int)
    requires Unique(s) && Contains(s, dragged) && Contains(s, drop)
    requires ParentOf(s, dragged) == ParentOf(s, drop) && dy < 0
    ensures var list := SiblingsOf(s, dragged);
      var i := IndexOf(list, dragged);
      var j := IndexOf(list, drop);
      0 <= i && 0 <= j &&
      SiblingsOf(Switched(s, dragged, drop, dy), dragged) == MoveWithin(list, i, j)
  {
    var list := SiblingsOf(s, dragged);
    var i := IndexOf(list, dragged);
    var j := IndexOf(list, drop);
    InSiblings(s, dragged);
    InSiblings(s, drop);
    assert SwitchOffset(s, dragged, drop, dy) == Some(OffsetIn(list, dragged, drop, dy));
    assert OffsetIn(list, dragged, drop, dy) == j - i;
    ReorderSiblings(s, dragged, j - i);
    assert Clamp(i + (j - i), |list|) == j;
  }

  /**
   * Dragging downwards adds the two indices instead of subtracting them:
   * with roots A, B, C, D, dropping B onto C gives offset 1 + 2 = 3, the
   * new index 4 is clamped to 3, and B lands after D instead of at C's
   * place.
   */
  lemma {:induction false} SwitchDownOvershoots()
    ensures var a, b, c, d := Item(Some("a"), "A", []), Item(Some("b"), "B", []),
                              Item(Some("c"), "C", []), Item(Some("d"), "D", []);
      Unique([a, b, c, d]) && Switched([a, b, c, d], "b", "c", 0) == [a, c, d, b]
  {
    var a, b, c, d := Item(Some("a"), "A", []), Item(Some("b"), "B", []),
                      Item(Some("c"), "C", []), Item(Some("d"), "D", []);
    var s := [a, b, c, d];
    OvershootFacts(a, b, c, d);
    assert SwitchOffset(s, "b", "c", 0) == Some(3);
    assert Clamp(1 + 3, 4) == 3;
    assert Switched(s, "b", "c", 0) == ReorderAt(s, None, s, 1, 3);
    var w := s[..1] + s[2..];
    assert w == [a, c, d];
    assert MoveWithin(s, 1, 3) == w[..3] + [b] + w[3..];
  }

  /** The four roots of the overshoot example: unique, parentless, at indices 0 to 3. */
  lemma {:induction false} OvershootFacts(a: Item, b: Item, c: Item, d: Item)
    requires a == Item(Some("a"), "A", []) && b == Item(Some("b"), "B", [])
    requires c == Item(Some("c"), "C", []) && d == Item(Some("d"), "D", [])
    ensures Unique([a, b, c, d])
    ensures ParentOf([a, b, c, d], "b").None? && ParentOf([a, b, c, d], "c").None?
    ensures IndexOf([a, b, c, d], "b") == 1 && IndexOf([a, b, c, d], "c") == 2
  {
    var s := [a, b, c, d];
    OvershootUnique(a, b, c, d);
    FlatNoParent(s, "b");
    FlatNoParent(s, "c");
    assert s[1..] == [b, c, d] && s[1..][1..] == [c, d];
    assert "a" != "b" && "a" != "c" && "b" != "c";
    assert IndexOf([c, d], "c") == 0;
    assert IndexOf([b, c, d], "c") == 1;
    assert IndexOf([b, c, d], "b") == 0;
  }

  lemma {:induction false} OvershootUnique(a: Item, b: Item, c: Item, d: Item)
    requires a == Item(Some("a"), "A", []) && b == Item(Some("b"), "B", [])
    requires c == Item(Some("c"), "C", []) && d == Item(Some("d"), "D", [])
    ensures Unique([a, b, c, d])
  {
    var s := [a, b, c, d];
    assert s[1..] == [b, c, d] && s[1..][1..] == [c, d] && s[1..][1..][1..] == [d];
    assert Ids([d]) == [d.id];
    assert Ids([c, d]) == [c.id] + Ids([d]);
    assert Ids([b, c, d]) == [b.id] + Ids([c, d]);
    assert Ids(s) == [a.id, b.id, c.id, d.id];
    assert "a" != "b" && "a" != "c" && "a" != "d" && "b" != "c" && "b" != "d" && "c" != "d";
    DistinctFour("a", "b", "c", "d");
  }

  lemma {:induction false} DistinctFour(p: Id, q: Id, r: Id, t: Id)
    requires p != q && p != r && p != t && q != r && q != t && r != t
    ensures UniqueSeq([Some(p), Some(q), Some(r), Some(t)])
  {
    var l := [Some(p), Some(q), Some(r), Some(t)];
    forall v: Option<Id> | v in multiset(l) ensures v.Some? && multiset(l)[v] == 1 {
      assert v in l;
    }
  }

  /** In a list of leaves no word has a parent. */
  lemma {:induction false} FlatNoParent(s: seq<Item>, x: Id)
    requires forall k | 0 <= k < |s| :: s[k].items == []
    ensures ParentOf(s, x).None?
  {
    if s != [] {
      assert s[0].items == [];
      FlatNoParent(s[1..], x);
    }
  }

  // ---------------------------------------------------------------------
  // createItem
  // ---------------------------------------------------------------------

  /** `createItem(n, p)`: `n` is pushed onto `p`'s list, or onto the root list. */
  function Created(s: seq<Item>, n: Item, p: Option<Id>): seq<Item>
  {
    if p.Some? then Edit(s, p.value, Append(n)) else s + [n]
  }

  /**
   * Creating adds exactly the new word's block: its ids join the forest
   * and its one new link goes to `p`; every other link is kept.  A fresh
   * word without sub-words raises the count by one.
   */
  lemma {:induction false} CreateAdds(s: seq<Item>, n: Item, p: Option<Id>)
    requires Unique(s) && (p.Some? ==> Contains(s, p.value))
    ensures multiset(Ids(Created(s, n, p))) == multiset(Ids(s)) + multiset(Ids([n]))
    ensures multiset(Links(Created(s, n, p), None)) == multiset(Links(s, None)) + multiset(Links([n], p))
    ensures n.items == [] ==> |Ids(Created(s, n, p))| == |Ids(s)| + 1
  {
    if p.Some? {
      PushIds(s, p.value, n);
      PushLinks(s, p.value, n);
    } else {
      IdsConcat(s, [n]);
      LinksConcat(s, [n], None);
    }
    Single(n, None);
    assert |multiset(Ids(Created(s, n, p)))| == |multiset(Ids(s))| + |multiset(Ids([n]))|;
  }

  /** The new word is the last sub-word of `p`, or the last root. */
  lemma {:induction false} CreateLands(s: seq<Item>, n: Item, p: Option<Id>)
    requires Unique(s) && (p.Some? ==> Contains(s, p.value))
    ensures p.Some? ==> (Contains(Created(s, n, p), p.value) &&
      var l := Find(Created(s, n, p), p.value).value.items;
      |l| > 0 && l[|l| - 1] == n)
    ensures p.None? ==> Created(s, n, p)[|Created(s, n, p)| - 1] == n
  {
    if p.Some? {
      PushLands(s, p.value, n);
    }
  }

  /** The list `createItem` pushes onto: the `items` of the word `p`, or the root list. */
  function ListUnder(s: seq<Item>, p: Option<Id>): seq<Item>
    requires p.Some? ==> Contains(s, p.value)
  {
    if p.Some? then Find(s, p.value).value.items else s
  }

  /**
   * Creating changes nothing but the one list: in the preorder sequences of
   * links and of names, the new word's block is inserted right after the
   * block of `p`'s list, and every other entry keeps its place.  So every
   * other list keeps its entries in their order, and every word its name.
   */
  lemma {:induction false} CreateFrame(s: seq<Item>, n: Item, p: Option<Id>)
    returns (a: seq<Link>, b: seq<Link>, c: seq<string>, d: seq<string>)
    requires Unique(s) && (p.Some? ==> Contains(s, p.value))
    ensures Links(s, None) == a + Links(ListUnder(s, p), p) + b
    ensures Links(Created(s, n, p), None) == a + Links(ListUnder(s, p), p) + Links([n], p) + b
    ensures Names(s) == c + Names(ListUnder(s, p)) + d
    ensures Names(Created(s, n, p)) == c + Names(ListUnder(s, p)) + Names([n]) + d
  {
    if p.Some? {
      assert ListUnder(s, p) == Find(s, p.value).value.items;
      assert Created(s, n, p) == Edit(s, p.value, Append(n));
      a, b, c, d := PushFrame(s, p.value, n);
    } else {
      assert ListUnder(s, p) == s && Created(s, n, p) == s + [n];
      a, b, c, d := AppendRootFrame(s, n);
    }
  }

  /** Appending a root adds its block at the end of both sequences. */
  lemma {:induction false} AppendRootFrame(s: seq<Item>, n: Item)
    returns (a: seq<Link>, b: seq<Link>, c: seq<string>, d: seq<string>)
    ensures Links(s, None) == a + Links(s, None) + b
    ensures Links(s + [n], None) == a + Links(s, None) + Links([n], None) + b
    ensures Names(s) == c + Names(s) + d
    ensures Names(s + [n]) == c + Names(s) + Names([n]) + d
  {
    a, b, c, d := [], [], [], [];
    LinksConcat(s, [n], None);
    NamesConcat(s, [n]);
    Padded(Links(s, None), Links([n], None));
    Padded(Names(s), Names([n]));
  }

  lemma {:induction false} Padded<T>(x: seq<T>, y: seq<T>)
    ensures [] + x + [] == x && [] + x + y + [] == x + y
  {
  }

  /** `push(n)` onto the word `t`: only the block of `t`'s list grows, by `n`'s block. */
  lemma {:induction false} PushFrame(s: seq<Item>, t: Id, n: Item)
    returns (a: seq<Link>, b: seq<Link>, c: seq<string>, d: seq<string>)
    requires Unique(s) && Contains(s, t)
    ensures Links(s, None) == a + Links(Find(s, t).value.items, Some(t)) + b
    ensures Links(Edit(s, t, Append(n)), None) == a + Links(Find(s, t).value.items, Some(t)) + Links([n], Some(t)) + b
    ensures Names(s) == c + Names(Find(s, t).value.items) + d
    ensures Names(Edit(s, t, Append(n))) == c + Names(Find(s, t).value.items) + Names([n]) + d
  {
    a, b := PushLinksFrame(s, t, n);
    c, d := PushNamesFrame(s, t, n);
  }

  lemma {:induction false} PushLinksFrame(s: seq<Item>, t: Id, n: Item) returns (a: seq<Link>, b: seq<Link>)
    requires Unique(s) && Contains(s, t)
    ensures Links(s, None) == a + Links(Find(s, t).value.items, Some(t)) + b
    ensures Links(Edit(s, t, Append(n)), None) == a + Links(Find(s, t).value.items, Some(t)) + Links([n], Some(t)) + b
  {
    UniqueOcc(s, t);
    a, b := EditLinks(s, t, Append(n), None);
    var l := Find(s, t).value.items;
    assert Append(n)(l) == l + [n];
    LinksConcat(l, [n], Some(t));
    Assoc3(a, Links(l, Some(t)), Links([n], Some(t)), b);
  }

  lemma {:induction false} PushNamesFrame(s: seq<Item>, t: Id, n: Item) returns (c: seq<string>, d: seq<string>)
    requires Unique(s) && Contains(s, t)
    ensures Names(s) == c + Names(Find(s, t).value.items) + d
    ensures Names(Edit(s, t, Append(n))) == c + Names(Find(s, t).value.items) + Names([n]) + d
  {
    UniqueOcc(s, t);
    c, d := EditNames(s, t, Append(n));
    var l := Find(s, t).value.items;
    assert Append(n)(l) == l + [n];
    NamesConcat(l, [n]);
    Assoc3(c, Names(l), Names([n]), d);
  }

  /** Pushing onto a word that is not in the forest leaves the forest as it was. */
  lemma {:induction false} CreateUnderAbsent(s: seq<Item>, n: Item, p: Id)
    requires !Contains(s, p)
    ensures Created(s, n, Some(p)) == s
  {
    EditAbsent(s, p, Append(n));
  }

  // ---------------------------------------------------------------------
  // Helpers on ids
  // ---------------------------------------------------------------------

  lemma {:induction false} IdAtIn(l: seq<Item>, i: int)
    requires 0 <= i < |l| && l[i].id.Some?
    ensures Contains(l, l[i].id.value)
  {
    ChildInNodes(l, i);
    NodeIdIn(l, l[i]);
  }

  lemma {:induction false} ContainsSnoc(l: seq<Item>, i: nat, x: Id)
    requires i < |l|
    ensures Contains(l[..i + 1], x) <==> Contains(l[..i], x) || l[i].id == Some(x) || Contains(l[i].items, x)
  {
    assert l[..i + 1] == l[..i] + [l[i]];
    IdsConcat(l[..i], [l[i]]);
    Single(l[i], None);
  }

  lemma {:induction false} PrefixContains(l: seq<Item>, i: nat, x: Id)
    requires i <= |l| && Contains(l[..i], x)
    ensures Contains(l, x)
  {
    assert l == l[..i] + l[i..];
    IdsConcat(l[..i], l[i..]);
  }

  // ---------------------------------------------------------------------
  // The component's state
  // ---------------------------------------------------------------------

  /**
   * The `Hierarchies` component: the forest it edits, and its edits acting
   * on that forest step by step.
   */
  class Editor {
    var items: seq<Item>

    constructor(items0: seq<Item>)
      ensures items == items0
    {
      items := items0;
    }

    /** `moveItem(dragged, target)`: the four guards, then removal and `push`. */
    method MoveItem(dragged: Id, target: Option<Id>)
      requires Contains(items, dragged) && (target.Some? ==> Contains(items, target.value))
      modifies this
      ensures items == Moved(old(items), dragged, target)
    {
      if target == Some(dragged) {
        return;
      }
      var draggedItem := Find(items, dragged).value;
      if target.Some? {
        var d := IsDescendant(draggedItem, target.value);
        if d {
          return;
        }
      }
      var updatedItems := items;
      var parent := FindParent(dragged, updatedItems);
      if parent.None? && target.None? {
        return;
      }
      if target.Some? && HasChild(Find(items, target.value).value.items, dragged) {
        return;
      }
      var removed;
      updatedItems, removed := RemoveFrom(updatedItems, dragged);
      if target.Some? {
        updatedItems := Edit(updatedItems, target.value, Append(draggedItem));
      } else {
        updatedItems := updatedItems + [draggedItem];
      }
      items := updatedItems;
    }

    /** `removeItem(x)` on the whole forest, which it then stores. */
    method RemoveItem(x: Id) returns (result: bool)
      modifies this
      ensures (items, result) == Remove(old(items), x)
    {
      var itemList;
      itemList, result := RemoveFrom(items, x);
      items := itemList;
    }

    /** `orderItem(x, indexOffset)`: the clamping of `newIndex`, then the two splices. */
    method OrderItem(x: Id, indexOffset: int)
      modifies this
      ensures items == Reordered(old(items), x, indexOffset)
    {
      var parent := FindParent(x, items);
      var fromArray := ListOf(items, parent);
      var index := IndexOf(fromArray, x);
      if index < 0 {
        return;
      }
      var newIndex := index + indexOffset;
      if newIndex < 0 {
        newIndex := 0;
      }
      if newIndex >= |fromArray| {
        newIndex := |fromArray| - 1;
      }
      if newIndex != index {
        var item := fromArray[index];
        fromArray := fromArray[..index] + fromArray[index + 1..];
        fromArray := fromArray[..newIndex] + [item] + fromArray[newIndex..];
        items := WriteBack(items, parent, fromArray);
      }
    }

    /** `switchItem(movement, dragged, drop)`: the offset, then `orderItem` when there is one. */
    method SwitchItem(dragged: Id, drop: Id, dy: int)
      modifies this
      ensures items == Switched(old(items), dragged, drop, dy)
    {
      var offset: Option<int> := None;
      var draggedItemParent := FindParent(dragged, items);
      var dropItemParent := FindParent(drop, items);
      if draggedItemParent == dropItemParent {
        var parent := ListOf(items, dropItemParent);
        var indexOfDraggedItem := IndexOf(parent, dragged);
        var indexOfDropItem := IndexOf(parent, drop);
        if dy < 0 {
          offset := Some(indexOfDropItem - indexOfDraggedItem);
        } else {
          offset := Some(indexOfDraggedItem + indexOfDropItem);
        }
      }
      assert offset == SwitchOffset(items, dragged, drop, dy);
      if offset.Some? {
        OrderItem(dragged, offset.value);
      }
    }

    /** `createItem(item, parent)`: `push` onto the parent's list, or onto the root list. */
    method CreateItem(item: Item, parent: Option<Id>)
      modifies this
      ensures items == Created(old(items), item, parent)
    {
      if parent.Some? {
        items := Edit(items, parent.value, Append(item));
      } else {
        items := items + [item];
      }
    }
  }
}
