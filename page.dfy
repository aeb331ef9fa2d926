/**
 * The home page: the export that strips every id before the forest is
 * written out as JSON, the root "Criar" button, and the id under which the
 * forest is saved.
 *
 * New ids (`uuidv4()`) and the clock (`Date.now()`) are parameters; the
 * file download itself (Blob, object URL, anchor click) is not modelled.
 */
module Page {
  import opened Forest
  import opened Hierarchies
  import opened HierarchySlice

  // ---------------------------------------------------------------------
  // formatData
  // ---------------------------------------------------------------------

  /** The export shape `{name, items}` of every word: the forest with all ids deleted. */
  function Stripped(s: seq<Item>): seq<Item>
  {
    if s == [] then [] else [Item(None, s[0].name, Stripped(s[0].items))] + Stripped(s[1..])
  }

  /** No word at any depth carries an id. */
  predicate IdFree(s: seq<Item>)
  {
    forall v | v in Ids(s) :: v.None?
  }

  /**
   * `formatData(items)`: each entry loses its id and its sub-words are
   * formatted in turn; the list is then returned.
   */
  method FormatData(items: seq<Item>) returns (r: seq<Item>)
    ensures r == Stripped(items)
    decreases items
  {
    r := items;
    for i := 0 to |items|
      invariant |r| == |items|
      invariant r == Stripped(items[..i]) + items[i..]
    {
      var item := r[i];
      assert item == items[i];
      var sub := FormatData(item.items);
      item := item.(id := None);
      item := item.(items := sub);
      StrippedSnoc(items, i);
      r := r[i := item];
      assert r == Stripped(items[..i + 1]) + items[i + 1..];
    }
    assert items[..|items|] == items;
  }

  lemma {:induction false} StrippedConcat(a: seq<Item>, b: seq<Item>)
    ensures Stripped(a + b) == Stripped(a) + Stripped(b)
  {
    if a != [] {
      assert (a + b)[0] == a[0] && (a + b)[1..] == a[1..] + b;
      StrippedConcat(a[1..], b);
    } else {
      assert a + b == b;
    }
  }

  /** One more entry stripped: the loop step of `FormatData`. */
  lemma {:induction false} StrippedSnoc(items: seq<Item>, i: nat)
    requires i < |items|
    ensures |Stripped(items[..i])| == i
    ensures Stripped(items[..i + 1]) == Stripped(items[..i]) + [Item(None, items[i].name, Stripped(items[i].items))]
    ensures (Stripped(items[..i]) + items[i..])[i := Item(None, items[i].name, Stripped(items[i].items))]
         == Stripped(items[..i + 1]) + items[i + 1..]
  {
    assert items[..i + 1] == items[..i] + [items[i]];
    StrippedConcat(items[..i], [items[i]]);
    StrippedLength(items[..i]);
    var e := Item(None, items[i].name, Stripped(items[i].items));
    var u := (Stripped(items[..i]) + items[i..])[i := e];
    var v := Stripped(items[..i + 1]) + items[i + 1..];
    assert |u| == |v|;
    forall k | 0 <= k < |u| ensures u[k] == v[k] {
    }
  }

  lemma {:induction false} StrippedLength(s: seq<Item>)
    ensures |Stripped(s)| == |s|
  {
    if s != [] {
      StrippedLength(s[1..]);
    }
  }

  /** After `formatData` no word at any depth has an id. */
  lemma {:induction false} StrippedIdFree(s: seq<Item>)
    ensures IdFree(Stripped(s))
    ensures forall x :: !Contains(Stripped(s), x)
  {
    if s != [] {
      StrippedIdFree(s[0].items);
      StrippedIdFree(s[1..]);
      var h := Item(None, s[0].name, Stripped(s[0].items));
      assert Ids(Stripped(s)) == [None] + Ids(Stripped(s[0].items)) + Ids(Stripped(s[1..])) by {
        assert Stripped(s) == [h] + Stripped(s[1..]);
        assert ([h] + Stripped(s[1..]))[0] == h && ([h] + Stripped(s[1..]))[1..] == Stripped(s[1..]);
      }
    }
  }

  /**
   * `formatData` keeps the shape: the same number of entries in every
   * list, the same names in the same order, and each entry's sub-words
   * formatted in turn.
   */
  lemma {:induction false} StrippedShape(s: seq<Item>)
    ensures |Stripped(s)| == |s|
    ensures forall k | 0 <= k < |s| :: Stripped(s)[k] == Item(None, s[k].name, Stripped(s[k].items))
    ensures Names(Stripped(s)) == Names(s)
    ensures |Ids(Stripped(s))| == |Ids(s)|
  {
    StrippedLength(s);
    if s != [] {
      StrippedShape(s[0].items);
      StrippedShape(s[1..]);
      var h := Item(None, s[0].name, Stripped(s[0].items));
      assert Stripped(s) == [h] + Stripped(s[1..]);
      assert ([h] + Stripped(s[1..]))[0] == h && ([h] + Stripped(s[1..]))[1..] == Stripped(s[1..]);
      forall k | 0 <= k < |s| ensures Stripped(s)[k] == Item(None, s[k].name, Stripped(s[k].items)) {
        if k > 0 {
          assert Stripped(s)[k] == Stripped(s[1..])[k - 1];
          assert s[1..][k - 1] == s[k];
        }
      }
    }
  }

  /**
   * A forest is left as it is by `formatData` exactly when it is already
   * id-free; so formatting twice is formatting once.
   */
  lemma {:induction false} StrippedFixpoint(s: seq<Item>)
    ensures Stripped(s) == s <==> IdFree(s)
    ensures Stripped(Stripped(s)) == Stripped(s)
  {
    StrippedIdFree(s);
    if IdFree(s) {
      IdFreeStripped(s);
    }
    IdFreeStripped(Stripped(s));
  }

  lemma {:induction false} IdFreeStripped(s: seq<Item>)
    requires IdFree(s)
    ensures Stripped(s) == s
  {
    if s != [] {
      assert Ids(s) == [s[0].id] + Ids(s[0].items) + Ids(s[1..]);
      assert s[0].id in Ids(s);
      IdFreeStripped(s[0].items);
      IdFreeStripped(s[1..]);
    }
  }

  // ---------------------------------------------------------------------
  // Root creation and the saved id
  // ---------------------------------------------------------------------

  /** The root "Criar" button: `[...items, {id: newId, name, items: []}]`. */
  function CreatedRoot(items: seq<Item>, newId: Id, name: string): seq<Item>
  {
    items + [Item(Some(newId), name, [])]
  }

  /**
   * The button appends exactly one new leaf at the end of the root list,
   * whatever the name (the empty one included), which is `createItem`
   * without a parent; an unused id keeps the forest unique.
   */
  lemma {:induction false} CreateRootAppends(items: seq<Item>, newId: Id, name: string)
    ensures CreatedRoot(items, newId, name)[..|items|] == items
    ensures CreatedRoot(items, newId, name)[|items|] == Item(Some(newId), name, [])
    ensures |Ids(CreatedRoot(items, newId, name))| == |Ids(items)| + 1
    ensures CreatedRoot(items, newId, name) == Created(items, Item(Some(newId), name, []), None)
    ensures Unique(items) && !Contains(items, newId) ==> Unique(CreatedRoot(items, newId, name))
  {
    var n := Item(Some(newId), name, []);
    IdsConcat(items, [n]);
    Single(n, None);
    assert Ids([n]) == [Some(newId)];
    if Unique(items) && !Contains(items, newId) {
      UniqueSeqConcat(Ids(items), [Some(newId)]);
    }
  }

  /** `currentHierarchy?.id || uuidv4()`: the open hierarchy's id unless it is missing or empty. */
  function SaveId(current: Option<Hierarchy>, newId: string): string
  {
    if current.Some? && current.value.id != "" then current.value.id else newId
  }

  /**
   * `saveData`: the id used is the open hierarchy's when it has a non-empty
   * one, and the new id otherwise.  When the table holds a record with that
   * id, that record is updated in place: it keeps its id, its name and its
   * creation date and gets the live forest and `now` as its update date,
   * and every other record is kept.  Otherwise (no open hierarchy, or one
   * deleted from the table while it was open) a record with that id is
   * added in front, named after the new count.
   */
  lemma {:induction false} SaveDataUpserts(hs: seq<Hierarchy>, current: Option<Hierarchy>, newId: string,
                                           items: seq<Item>, now: int)
    ensures current.Some? && current.value.id != "" ==> SaveId(current, newId) == current.value.id
    ensures current.None? || current.value.id == "" ==> SaveId(current, newId) == newId
    ensures HasId(hs, SaveId(current, newId)) ==>
      0 <= IndexOfId(hs, SaveId(current, newId)) &&
      |Saved(hs, SaveId(current, newId), items, now)| == |hs| &&
      Saved(hs, SaveId(current, newId), items, now)[IndexOfId(hs, SaveId(current, newId))]
        == Hierarchy(SaveId(current, newId), hs[IndexOfId(hs, SaveId(current, newId))].name, Some(now),
                     hs[IndexOfId(hs, SaveId(current, newId))].createDate, items) &&
      forall k | 0 <= k < |hs| && k != IndexOfId(hs, SaveId(current, newId)) ::
        Saved(hs, SaveId(current, newId), items, now)[k] == hs[k]
    ensures !HasId(hs, SaveId(current, newId)) ==>
      |Saved(hs, SaveId(current, newId), items, now)| == |hs| + 1 &&
      Saved(hs, SaveId(current, newId), items, now)[0]
        == Hierarchy(SaveId(current, newId), NameFor(|hs|), Some(now), Some(now), items) &&
      Saved(hs, SaveId(current, newId), items, now)[1..] == hs
  {
    var id := SaveId(current, newId);
    if HasId(hs, id) {
      SaveExisting(hs, id, items, now);
    } else {
      SaveNew(hs, id, items, now);
    }
  }

  // ---------------------------------------------------------------------
  // The page's state
  // ---------------------------------------------------------------------

  /** The `Home` component: the name being typed, the live forest and the open hierarchy. */
  class Home {
    var name: string
    var items: seq<Item>
    var currentHierarchy: Option<Hierarchy>

    constructor()
      ensures name == "" && items == [] && currentHierarchy == None
    {
      name, items, currentHierarchy := "", [], None;
    }

    /** `saveData`: the live forest saved under the chosen id, at time `now`. */
    method SaveData(store: HierarchyStore, newId: string, now: int)
      modifies store
      ensures store.hierarchies == Saved(old(store.hierarchies), SaveId(currentHierarchy, newId), items, now)
    {
      var id := if currentHierarchy.Some? && currentHierarchy.value.id != "" then currentHierarchy.value.id else newId;
      store.SaveHierarchy(id, items, now);
    }

    /**
     * `download`: the data written out is the live forest, copied and then
     * formatted; the live forest itself keeps its ids.
     */
    method Download() returns (data: seq<Item>)
      ensures data == Stripped(items)
      ensures IdFree(data)
    {
      var copy := items;
      data := FormatData(copy);
      StrippedIdFree(items);
    }

    /** The root "Criar" button: the name field is cleared and a new root appended. */
    method CreateRoot(newId: Id)
      modifies this
      ensures name == ""
      ensures items == CreatedRoot(old(items), newId, old(name))
      ensures currentHierarchy == old(currentHierarchy)
    {
      var typed := name;
      name := "";
      items := items + [Item(Some(newId), typed, [])];
    }
  }
}
