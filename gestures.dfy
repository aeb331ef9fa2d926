/**
 * The decisions one word of the tree takes when the user acts on it: a
 * drop onto it, the end of a drag, a click while a word is waiting to be
 * moved, and which of its option buttons are offered.
 *
 * Each gesture is a pure function from what the drag-and-drop monitor and
 * the component state report to the edit it asks for (an `Action`);
 * `Apply` performs that edit on the forest with the operations of
 * `Hierarchies`.  Words are named by their ids, so `draggedItem === item`
 * is a comparison of ids.
 */
module Gestures {
  import opened Forest
  import opened Hierarchies

  /** A screen coordinate pair (`XYCoord`). */
  datatype XY = XY(x: int, y: int)

  /** The edit a gesture asks the editor for. */
  datatype Action =
    | NoAction
    | Move(dragged: Id, target: Option<Id>)
    | Switch(dy: int, dragged: Id, drop: Id)
    | Order(x: Id, offset: int)
    | Delete(x: Id)
    | Create(item: Item, parent: Option<Id>)

  /** `moveItem` needs both words in the forest; the other edits take any input. */
  predicate Applicable(s: seq<Item>, a: Action)
  {
    match a
    case Move(x, t) => Contains(s, x) && (t.Some? ==> Contains(s, t.value))
    case _ => true
  }

  /** The forest after the editor has performed `a`. */
  function Apply(s: seq<Item>, a: Action): seq<Item>
    requires Applicable(s, a)
  {
    match a
    case NoAction => s
    case Move(x, t) => Moved(s, x, t)
    case Switch(dy, d, p) => Switched(s, d, p, dy)
    case Order(x, k) => Reordered(s, x, k)
    case Delete(x) => Remove(s, x).0
    case Create(n, p) => Created(s, n, p)
  }

  /**
   * Every edit but creation and removal keeps exactly the words of the
   * forest, and so keeps it unique.
   */
  lemma {:induction false} ApplyPreserves(s: seq<Item>, a: Action)
    requires Unique(s) && Applicable(s, a) && !a.Delete? && !a.Create?
    ensures multiset(Ids(Apply(s, a))) == multiset(Ids(s))
    ensures Unique(Apply(s, a))
  {
    match a
    case NoAction =>
    case Move(x, t) => MovePreserves(s, x, t);
    case Switch(dy, d, p) => SwitchKeeps(s, d, p, dy);
    case Order(x, k) => ReorderKeeps(s, x, k);
  }

  // ---------------------------------------------------------------------
  // Dropping a word onto this one
  // ---------------------------------------------------------------------

  /** The drag horizontal distance from which a drop nests the word instead of reordering it. */
  const NestDistance := 50

  /** Not dropped onto itself, and the monitor reported every offset. */
  predicate Positioned(dragged: Id, item: Id, movement: Option<XY>, draggedPos: Option<XY>, targetPos: Option<XY>)
  {
    dragged != item && movement.Some? && draggedPos.Some? && targetPos.Some?
  }

  /**
   * The `drop` handler of the word `item`: nothing for the word itself or
   * for a missing offset; a drop at least `NestDistance` to the right of
   * the target nests the dragged word under it, any other drop reorders
   * with the vertical movement.
   */
  function OnDrop(dragged: Id, item: Id, movement: Option<XY>, draggedPos: Option<XY>, targetPos: Option<XY>): Action
  {
    if dragged == item then NoAction
    else if movement.None? || draggedPos.None? || targetPos.None? then NoAction
    else
      var movementX := draggedPos.value.x - targetPos.value.x;
      if movementX >= NestDistance then Move(dragged, Some(item))
      else Switch(movement.value.y, dragged, item)
  }

  /**
   * What a drop does to the forest: nothing when it is ignored; otherwise
   * the dragged word becomes the last sub-word of the target (far enough
   * right, unless a guard of `moveItem` fires) or is switched with it.
   * Either way no word is lost or duplicated.
   */
  lemma {:induction false} DropEffect(s: seq<Item>, dragged: Id, item: Id, movement: Option<XY>,
                                      draggedPos: Option<XY>, targetPos: Option<XY>)
    requires Unique(s) && Contains(s, dragged) && Contains(s, item)
    ensures Applicable(s, OnDrop(dragged, item, movement, draggedPos, targetPos))
    ensures !Positioned(dragged, item, movement, draggedPos, targetPos) ==>
      Apply(s, OnDrop(dragged, item, movement, draggedPos, targetPos)) == s
    ensures Positioned(dragged, item, movement, draggedPos, targetPos) &&
            draggedPos.value.x - targetPos.value.x >= NestDistance && !MoveCancelled(s, dragged, Some(item)) ==>
      var after := Apply(s, OnDrop(dragged, item, movement, draggedPos, targetPos));
      Contains(after, item) &&
      var l := Find(after, item).value.items;
      |l| > 0 && l[|l| - 1] == Find(s, dragged).value
    ensures Positioned(dragged, item, movement, draggedPos, targetPos) &&
            draggedPos.value.x - targetPos.value.x < NestDistance ==>
      Apply(s, OnDrop(dragged, item, movement, draggedPos, targetPos)) == Switched(s, dragged, item, movement.value.y)
    ensures multiset(Ids(Apply(s, OnDrop(dragged, item, movement, draggedPos, targetPos)))) == multiset(Ids(s))
    ensures Unique(Apply(s, OnDrop(dragged, item, movement, draggedPos, targetPos)))
  {
    var a := OnDrop(dragged, item, movement, draggedPos, targetPos);
    ApplyPreserves(s, a);
    if a.Move? {
      assert a == Move(dragged, Some(item));
      assert Apply(s, a) == Moved(s, dragged, Some(item));
      if !MoveCancelled(s, dragged, Some(item)) {
        MoveLands(s, dragged, Some(item));
      }
    }
  }

  // ---------------------------------------------------------------------
  // Ending a drag outside every target
  // ---------------------------------------------------------------------

  /** The `end` handler: a drag that no target accepted moves the word to the root list. */
  function OnDragEnd(dragged: Id, dropped: bool): Action
  {
    if !dropped then Move(dragged, None) else NoAction
  }

  /**
   * A drag released outside every target makes a nested word the last
   * root, subtree and all, and leaves a root where it is; a drop leaves
   * the forest to the target's handler.
   */
  lemma {:induction false} DragEndEffect(s: seq<Item>, x: Id, dropped: bool)
    requires Unique(s) && Contains(s, x)
    ensures Applicable(s, OnDragEnd(x, dropped))
    ensures dropped || HasChild(s, x) ==> Apply(s, OnDragEnd(x, dropped)) == s
    ensures !dropped && !HasChild(s, x) ==>
      var after := Apply(s, OnDragEnd(x, dropped));
      |after| > 0 && after[|after| - 1] == Find(s, x).value && HasChild(after, x)
    ensures multiset(Ids(Apply(s, OnDragEnd(x, dropped)))) == multiset(Ids(s))
  {
    var a := OnDragEnd(x, dropped);
    ApplyPreserves(s, a);
    ParentOfRoot(s, x);
    if !dropped && !HasChild(s, x) {
      MoveLands(s, x, None);
      var after := Apply(s, a);
      assert after[|after| - 1].id == Some(x);
    }
  }

  // ---------------------------------------------------------------------
  // Clicking a word while another is waiting to be moved
  // ---------------------------------------------------------------------

  /**
   * The click effect of the word `clicked`: the word chosen with "Mover"
   * (`pending`), if any, is moved under the clicked one, and the pending
   * word is cleared in every case.
   */
  function OnClick(pending: Option<Id>, clicked: Id): (Action, Option<Id>)
  {
    var action := if pending.Some? then Move(pending.value, Some(clicked)) else NoAction;
    (action, None)
  }

  /**
   * After a click nothing is pending any more; with nothing pending, or a
   * click on the pending word itself, the forest is as it was; and no word
   * is lost or duplicated.
   */
  lemma {:induction false} ClickEffect(s: seq<Item>, pending: Option<Id>, clicked: Id)
    requires Unique(s) && Contains(s, clicked) && (pending.Some? ==> Contains(s, pending.value))
    ensures OnClick(pending, clicked).1 == None
    ensures Applicable(s, OnClick(pending, clicked).0)
    ensures pending.None? || pending == Some(clicked) ==> Apply(s, OnClick(pending, clicked).0) == s
    ensures multiset(Ids(Apply(s, OnClick(pending, clicked).0))) == multiset(Ids(s))
    ensures Unique(Apply(s, OnClick(pending, clicked).0))
  {
    ApplyPreserves(s, OnClick(pending, clicked).0);
  }

  /**
   * A click on `clicked` while `x` is pending makes `x`, subtree and all,
   * the last sub-word of `clicked`, unless a guard of `moveItem` fires.
   */
  lemma {:induction false} ClickLands(s: seq<Item>, x: Id, clicked: Id)
    requires Unique(s) && Contains(s, clicked) && Contains(s, x)
    requires !MoveCancelled(s, x, Some(clicked))
    ensures Applicable(s, OnClick(Some(x), clicked).0)
    ensures Contains(Apply(s, OnClick(Some(x), clicked).0), clicked)
    ensures var l := Find(Apply(s, OnClick(Some(x), clicked).0), clicked).value.items;
      |l| > 0 && l[|l| - 1] == Find(s, x).value
  {
    assert OnClick(Some(x), clicked).0 == Move(x, Some(clicked));
    MoveLands(s, x, Some(clicked));
  }

  // ---------------------------------------------------------------------
  // The option buttons
  // ---------------------------------------------------------------------

  /**
   * The up and down buttons: shown only when the word has a parent with
   * more than one sub-word; the pair says whether up and down are disabled
   * (the word is the first, resp. the last, of its list).
   */
  function ReorderButtons(parent: Option<Item>, x: Id): Option<(bool, bool)>
  {
    if parent.Some? && |parent.value.items| > 1 then
      var l := parent.value.items;
      Some((l[0].id == Some(x), l[|l| - 1].id == Some(x)))
    else None
  }

  /** The edits behind the up and down buttons. */
  function Up(x: Id): Action { Order(x, -1) }
  function Down(x: Id): Action { Order(x, 1) }

  /**
   * In a unique forest the buttons are shown exactly for a nested word
   * with a sibling; up is disabled exactly for the first of its list and
   * down exactly for the last.
   */
  lemma {:induction false} ReorderButtonsShown(s: seq<Item>, x: Id)
    requires Unique(s) && Contains(s, x)
    ensures 0 <= IndexOf(SiblingsOf(s, x), x)
    ensures ReorderButtons(ParentOf(s, x), x).Some? <==> !HasChild(s, x) && |SiblingsOf(s, x)| > 1
    ensures ReorderButtons(ParentOf(s, x), x).Some? ==>
      (ReorderButtons(ParentOf(s, x), x).value.0 <==> IndexOf(SiblingsOf(s, x), x) == 0) &&
      (ReorderButtons(ParentOf(s, x), x).value.1 <==> IndexOf(SiblingsOf(s, x), x) == |SiblingsOf(s, x)| - 1)
  {
    ParentOfRoot(s, x);
    InSiblings(s, x);
    match ParentOf(s, x)
    case None =>
    case Some(u) =>
      assert SiblingsOf(s, x) == u.items;
      if |u.items| > 1 {
        SiblingsUnique(s, x);
        ButtonFlags(u, x);
      }
  }

  /** The flags of one parent's list, the word `x` being one of its unique entries. */
  lemma {:induction false} ButtonFlags(u: Item, x: Id)
    requires Unique(u.items) && HasChild(u.items, x) && |u.items| > 1
    ensures ReorderButtons(Some(u), x).Some?
    ensures ReorderButtons(Some(u), x).value.0 <==> IndexOf(u.items, x) == 0
    ensures ReorderButtons(Some(u), x).value.1 <==> IndexOf(u.items, x) == |u.items| - 1
  {
    var l := u.items;
    var i := IndexOf(l, x);
    if l[|l| - 1].id == Some(x) && i != |l| - 1 {
      ChildIdsDistinct(l, i, |l| - 1);
    }
  }

  /**
   * Up on the first word of its list changes nothing; otherwise it moves
   * the word one place up within its list, under the same parent.
   */
  lemma {:induction false} UpEffect(s: seq<Item>, x: Id)
    requires Unique(s) && Contains(s, x)
    ensures 0 <= IndexOf(SiblingsOf(s, x), x)
    ensures IndexOf(SiblingsOf(s, x), x) == 0 ==> Apply(s, Up(x)) == s
    ensures IndexOf(SiblingsOf(s, x), x) > 0 ==>
      SiblingsOf(Apply(s, Up(x)), x)
        == MoveWithin(SiblingsOf(s, x), IndexOf(SiblingsOf(s, x), x), IndexOf(SiblingsOf(s, x), x) - 1)
    ensures ParentKey(Apply(s, Up(x)), x) == ParentKey(s, x)
  {
    InSiblings(s, x);
    assert Apply(s, Up(x)) == Reordered(s, x, -1);
    ReorderSiblings(s, x, -1);
    ReorderParent(s, x, -1);
    if IndexOf(SiblingsOf(s, x), x) == 0 {
      ReorderSameIndex(s, x, -1);
    }
  }

  /**
   * Down on the last word of its list changes nothing; otherwise it moves
   * the word one place down within its list, under the same parent.
   */
  lemma {:induction false} DownEffect(s: seq<Item>, x: Id)
    requires Unique(s) && Contains(s, x)
    ensures 0 <= IndexOf(SiblingsOf(s, x), x)
    ensures IndexOf(SiblingsOf(s, x), x) == |SiblingsOf(s, x)| - 1 ==> Apply(s, Down(x)) == s
    ensures IndexOf(SiblingsOf(s, x), x) < |SiblingsOf(s, x)| - 1 ==>
      SiblingsOf(Apply(s, Down(x)), x)
        == MoveWithin(SiblingsOf(s, x), IndexOf(SiblingsOf(s, x), x), IndexOf(SiblingsOf(s, x), x) + 1)
    ensures ParentKey(Apply(s, Down(x)), x) == ParentKey(s, x)
  {
    InSiblings(s, x);
    assert Apply(s, Down(x)) == Reordered(s, x, 1);
    ReorderSiblings(s, x, 1);
    ReorderParent(s, x, 1);
    if IndexOf(SiblingsOf(s, x), x) == |SiblingsOf(s, x)| - 1 {
      ReorderSameIndex(s, x, 1);
    }
  }

  /** "Desvincular": offered only to a word with a parent, it moves the word to the root list. */
  function UnlinkButton(parent: Option<Item>, x: Id): Option<Action>
  {
    if parent.Some? then Some(Move(x, None)) else None
  }

  /** The button is offered exactly to the nested words. */
  lemma {:induction false} UnlinkOffered(s: seq<Item>, x: Id)
    requires Unique(s) && Contains(s, x)
    ensures UnlinkButton(ParentOf(s, x), x).Some? <==> !HasChild(s, x)
  {
    ParentOfRoot(s, x);
  }

  /** The button makes the word the last root, subtree and all, and keeps every word. */
  lemma {:induction false} UnlinkLands(s: seq<Item>, x: Id)
    requires Unique(s) && Contains(s, x) && ParentOf(s, x).Some?
    ensures UnlinkButton(ParentOf(s, x), x) == Some(Move(x, None))
    ensures var after := Apply(s, Move(x, None));
      |after| > 0 && after[|after| - 1] == Find(s, x).value && HasChild(after, x) &&
      multiset(Ids(after)) == multiset(Ids(s))
  {
    var after := Moved(s, x, None);
    assert Apply(s, Move(x, None)) == after;
    MoveLands(s, x, None);
    MovePreserves(s, x, None);
    assert after[|after| - 1].id == Some(x);
  }

  /** "Excluir": the word and its subtree leave the forest. */
  lemma {:induction false} DeleteEffect(s: seq<Item>, x: Id)
    requires Unique(s) && Contains(s, x)
    ensures !Contains(Apply(s, Delete(x)), x) && Unique(Apply(s, Delete(x)))
    ensures multiset(Ids(Apply(s, Delete(x)))) + multiset(Ids([Find(s, x).value])) == multiset(Ids(s))
  {
    assert Apply(s, Delete(x)) == Remove(s, x).0;
    RemoveSubtree(s, x);
  }

  /**
   * The sub-word form's "Criar": disabled while the typed name is empty;
   * otherwise it asks for a new leaf with a new id and that name under the
   * word, and clears the name.
   */
  function SubitemCreate(name: string, newId: Id, parent: Id): (Option<Action>, string)
  {
    if |name| == 0 then (None, name)
    else (Some(Create(Item(Some(newId), name, []), Some(parent))), "")
  }

  /**
   * The button does something exactly when a name was typed; then the
   * forest gains exactly one word, the new leaf, as the last sub-word of
   * the parent, and an unused id keeps the forest unique.
   */
  lemma {:induction false} SubitemEffect(s: seq<Item>, name: string, newId: Id, parent: Id)
    requires Unique(s) && Contains(s, parent)
    ensures SubitemCreate(name, newId, parent).0.None? <==> name == ""
    ensures name != "" ==>
      SubitemCreate(name, newId, parent).1 == "" &&
      var after := Apply(s, SubitemCreate(name, newId, parent).0.value);
      multiset(Ids(after)) == multiset(Ids(s)) + multiset{Some(newId)} &&
      Count(after) == Count(s) + 1 &&
      Contains(after, parent) &&
      var l := Find(after, parent).value.items;
      |l| > 0 && l[|l| - 1] == Item(Some(newId), name, [])
    ensures name != "" && !Contains(s, newId) ==> Unique(Apply(s, SubitemCreate(name, newId, parent).0.value))
  {
    if name != "" {
      var n := Item(Some(newId), name, []);
      assert SubitemCreate(name, newId, parent).0 == Some(Create(n, Some(parent)));
      assert Apply(s, Create(n, Some(parent))) == Created(s, n, Some(parent));
      CreateAdds(s, n, Some(parent));
      CreateLands(s, n, Some(parent));
      Single(n, None);
      assert Ids([n]) == [Some(newId)];
      if !Contains(s, newId) {
        UniqueAdd(Ids(s), Ids(Created(s, n, Some(parent))), Some(newId));
      }
    }
  }

  // ---------------------------------------------------------------------
  // Helpers
  // ---------------------------------------------------------------------

  /** Adding one id that was not there to a sequence without repetitions keeps it so. */
  lemma {:induction false} UniqueAdd(q: seq<Option<Id>>, r: seq<Option<Id>>, v: Option<Id>)
    requires UniqueSeq(q) && v.Some? && v !in q && multiset(r) == multiset(q) + multiset{v}
    ensures UniqueSeq(r)
  {
    forall w | w in multiset(r) ensures w.Some? && multiset(r)[w] == 1 {
      if w == v {
        assert multiset(q)[v] == 0;
      } else {
        assert w in multiset(q);
      }
    }
  }

  /** The list a word of a unique forest sits in is itself unique. */
  lemma {:induction false} SiblingsUnique(s: seq<Item>, x: Id)
    requires Unique(s)
    ensures Unique(SiblingsOf(s, x))
  {
    ParentOfSpec(s, x);
    if ParentOf(s, x).Some? {
      NodeUnique(s, ParentOf(s, x).value);
    }
  }

  lemma {:induction false} NodeUnique(s: seq<Item>, u: Item)
    requires Unique(s) && u in Nodes(s)
    ensures Unique(u.items)
  {
    UniqueParts(s);
    if u != s[0] {
      if u in Nodes(s[0].items) {
        NodeUnique(s[0].items, u);
      } else {
        NodeUnique(s[1..], u);
      }
    }
  }

  /** Two entries of a unique list carry different ids. */
  lemma {:induction false} ChildIdsDistinct(l: seq<Item>, i: nat, k: nat)
    requires Unique(l) && i < k < |l|
    ensures l[i].id != l[k].id
  {
    var a, b := l[..k], l[k..];
    assert l == a + b;
    UniqueConcat(a, b);
    assert l[i] == a[i] && l[k] == b[0];
    ChildInNodes(a, i);
    NodeIdIn(a, a[i]);
    ChildInNodes(b, 0);
    NodeIdIn(b, b[0]);
    assert l[i].id in multiset(Ids(a)) && l[k].id in multiset(Ids(b));
  }
}
