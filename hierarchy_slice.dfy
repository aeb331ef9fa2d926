/**
 * The table of saved hierarchies kept in the application store: the
 * reducers `saveHierarchy` (an upsert keyed by id) and `removeHierarchy`.
 *
 * The clock is a parameter (`now`), and the JSON round trip that copies the
 * saved forest is a value copy: forests are values here, so a stored forest
 * cannot change when the live one does.
 */
module HierarchySlice {
  import opened Forest

  /** A saved forest with its name and its dates (`null` is `None`). */
  datatype Hierarchy = Hierarchy(
    id: string,
    name: string,
    updateDate: Option<int>,
    createDate: Option<int>,
    items: seq<Item>)

  // ---------------------------------------------------------------------
  // Lookups by id
  // ---------------------------------------------------------------------

  /** `findIndex` by id: the first record with id `id`, or -1. */
  function IndexOfId(hs: seq<Hierarchy>, id: string): (i: int)
    ensures -1 <= i < |hs|
    ensures 0 <= i ==> hs[i].id == id && forall k | 0 <= k < i :: hs[k].id != id
    ensures i < 0 ==> forall k | 0 <= k < |hs| :: hs[k].id != id
  {
    if hs == [] then -1
    else if hs[0].id == id then 0
    else
      var r := IndexOfId(hs[1..], id);
      if r < 0 then -1 else r + 1
  }

  predicate HasId(hs: seq<Hierarchy>, id: string)
  {
    exists k | 0 <= k < |hs| :: hs[k].id == id
  }

  /** No two records share an id. */
  predicate UniqueIds(hs: seq<Hierarchy>)
  {
    forall a, b | 0 <= a < b < |hs| :: hs[a].id != hs[b].id
  }

  /** The loop behind `find` and `findIndex`. */
  method FindIndex(hs: seq<Hierarchy>, id: string) returns (i: int)
    ensures i == IndexOfId(hs, id)
  {
    i := 0;
    while i < |hs| && hs[i].id != id
      invariant 0 <= i <= |hs|
      invariant forall k | 0 <= k < i :: hs[k].id != id
    {
      i := i + 1;
    }
    if i == |hs| {
      i := -1;
    }
    IndexOfIdFirst(hs, id, i);
  }

  /** The first index carrying `id`, or -1 when none does, is what `IndexOfId` returns. */
  lemma {:induction false} IndexOfIdFirst(hs: seq<Hierarchy>, id: string, i: int)
    requires -1 <= i < |hs|
    requires 0 <= i ==> hs[i].id == id && forall k | 0 <= k < i :: hs[k].id != id
    requires i < 0 ==> forall k | 0 <= k < |hs| :: hs[k].id != id
    ensures i == IndexOfId(hs, id)
  {
  }

  // ---------------------------------------------------------------------
  // The generated name
  // ---------------------------------------------------------------------

  /** The decimal numeral of `n`, as a template literal prints a number. */
  function NatToString(n: nat): (r: string)
    ensures |r| > 0 && forall k | 0 <= k < |r| :: '0' <= r[k] <= '9'
  {
    if n < 10 then [Digit(n)] else NatToString(n / 10) + [Digit(n % 10)]
  }

  function Digit(d: nat): (c: char)
    requires d < 10
    ensures '0' <= c <= '9' && c as int - '0' as int == d
  {
    ('0' as int + d) as char
  }

  /** The value of a decimal numeral. */
  function ParseNat(r: string): nat
    requires forall k | 0 <= k < |r| :: '0' <= r[k] <= '9'
  {
    if r == [] then 0 else ParseNat(r[..|r| - 1]) * 10 + (r[|r| - 1] as int - '0' as int)
  }

  /** Reading the numeral back gives the number. */
  lemma {:induction false} ParseNatToString(n: nat)
    ensures ParseNat(NatToString(n)) == n
  {
    var r := NatToString(n);
    if n >= 10 {
      var q := NatToString(n / 10);
      assert r == q + [Digit(n % 10)];
      assert r[..|r| - 1] == q;
      ParseNatToString(n / 10);
    }
  }

  /** `Hierarquia ${count + 1}`. */
  function NameFor(count: nat): string
  {
    "Hierarquia " + NatToString(count + 1)
  }

  /** Different counts give different names. */
  lemma {:induction false} NameForInjective(a: nat, b: nat)
    ensures NameFor(a) == NameFor(b) ==> a == b
  {
    if NameFor(a) == NameFor(b) {
      var p := "Hierarquia ";
      assert NatToString(a + 1) == NameFor(a)[|p|..];
      assert NatToString(b + 1) == NameFor(b)[|p|..];
      ParseNatToString(a + 1);
      ParseNatToString(b + 1);
    }
  }

  // ---------------------------------------------------------------------
  // The reducers as functions of the table
  // ---------------------------------------------------------------------

  /**
   * `saveHierarchy({id, items})` at time `now`: a new id gets a record in
   * front, named after the new count and created and updated at `now`; a
   * known id gets its update date and its forest replaced.
   */
  function Saved(hs: seq<Hierarchy>, id: string, items: seq<Item>, now: int): seq<Hierarchy>
  {
    var i := IndexOfId(hs, id);
    if i < 0 then [Hierarchy(id, NameFor(|hs|), Some(now), Some(now), items)] + hs
    else hs[i := hs[i].(updateDate := Some(now), items := items)]
  }

  /** `removeHierarchy({id})`: the record with the id is spliced out, if there is one. */
  function Removed(hs: seq<Hierarchy>, id: string): seq<Hierarchy>
  {
    var i := IndexOfId(hs, id);
    if i >= 0 then hs[..i] + hs[i + 1..] else hs
  }

  /** The index of an id is found exactly when some record has it. */
  lemma {:induction false} IndexOfIdHas(hs: seq<Hierarchy>, id: string)
    ensures IndexOfId(hs, id) >= 0 <==> HasId(hs, id)
  {
    if HasId(hs, id) {
      var k :| 0 <= k < |hs| && hs[k].id == id;
      assert hs[k].id == id;
    }
  }

  /**
   * Saving under a new id adds one record, at index 0, with the generated
   * name and both dates `now`; the old records follow in their order.
   */
  lemma {:induction false} SaveNew(hs: seq<Hierarchy>, id: string, items: seq<Item>, now: int)
    requires !HasId(hs, id)
    ensures |Saved(hs, id, items, now)| == |hs| + 1
    ensures Saved(hs, id, items, now)[0] == Hierarchy(id, NameFor(|hs|), Some(now), Some(now), items)
    ensures Saved(hs, id, items, now)[1..] == hs
  {
    IndexOfIdHas(hs, id);
  }

  /**
   * Saving under a known id keeps the count, the order, every other record
   * and the record's id, name and creation date; only its update date
   * (`now`) and its forest change.
   */
  lemma {:induction false} SaveExisting(hs: seq<Hierarchy>, id: string, items: seq<Item>, now: int)
    requires HasId(hs, id)
    ensures var i := IndexOfId(hs, id);
      var r := Saved(hs, id, items, now);
      0 <= i && |r| == |hs| &&
      r[i] == Hierarchy(id, hs[i].name, Some(now), hs[i].createDate, items) &&
      forall k | 0 <= k < |hs| && k != i :: r[k] == hs[k]
  {
    IndexOfIdHas(hs, id);
  }

  /**
   * An upsert keyed by id: afterwards the id is present, exactly once if
   * the ids were unique before, and its record holds the saved forest.
   */
  lemma {:induction false} SaveKeepsIdsUnique(hs: seq<Hierarchy>, id: string, items: seq<Item>, now: int)
    requires UniqueIds(hs)
    ensures UniqueIds(Saved(hs, id, items, now))
    ensures var r := Saved(hs, id, items, now);
      var i := IndexOfId(r, id);
      0 <= i && r[i].id == id && r[i].items == items && r[i].updateDate == Some(now)
  {
    var r := Saved(hs, id, items, now);
    var i := IndexOfId(hs, id);
    if i < 0 {
      forall a, b | 0 <= a < b < |r| ensures r[a].id != r[b].id {
        if a > 0 {
          assert r[a] == hs[a - 1] && r[b] == hs[b - 1];
        } else {
          assert r[b] == hs[b - 1];
        }
      }
      assert r[0].id == id;
      IndexOfIdFirst(r, id, 0);
    } else {
      forall a, b | 0 <= a < b < |r| ensures r[a].id != r[b].id {
        assert r[a].id == hs[a].id && r[b].id == hs[b].id;
      }
      forall k | 0 <= k < i ensures r[k].id != id {
        assert r[k] == hs[k];
      }
      IndexOfIdFirst(r, id, i);
    }
  }

  /**
   * Removing a known id splices out exactly that record, keeping the
   * others in their order; with unique ids the id is gone afterwards.
   */
  lemma {:induction false} RemoveExisting(hs: seq<Hierarchy>, id: string)
    requires HasId(hs, id)
    ensures var i := IndexOfId(hs, id);
      0 <= i && Removed(hs, id) == hs[..i] + hs[i + 1..] && |Removed(hs, id)| == |hs| - 1
    ensures UniqueIds(hs) ==> UniqueIds(Removed(hs, id)) && !HasId(Removed(hs, id), id)
  {
    IndexOfIdHas(hs, id);
    var i := IndexOfId(hs, id);
    var r := Removed(hs, id);
    if UniqueIds(hs) {
      forall k | 0 <= k < |r| ensures r[k].id != id && r[k] == hs[if k < i then k else k + 1] {
        if k >= i {
          assert r[k] == hs[k + 1];
          assert hs[i].id != hs[k + 1].id;
        }
      }
      forall a, b | 0 <= a < b < |r| ensures r[a].id != r[b].id {
        assert r[a] == hs[if a < i then a else a + 1];
        assert r[b] == hs[if b < i then b else b + 1];
      }
    }
  }

  /** Removing an id no record has changes nothing. */
  lemma {:induction false} RemoveAbsent(hs: seq<Hierarchy>, id: string)
    requires !HasId(hs, id)
    ensures Removed(hs, id) == hs
  {
    IndexOfIdHas(hs, id);
  }

  // ---------------------------------------------------------------------
  // The slice's state
  // ---------------------------------------------------------------------

  /** The `hierarchies` slice of the store. */
  class HierarchyStore {
    var hierarchies: seq<Hierarchy>

    /** `initialState`: no saved hierarchy. */
    constructor()
      ensures hierarchies == []
    {
      hierarchies := [];
    }

    /** The `saveHierarchy` reducer, with `Date.now()` given as `now`. */
    method SaveHierarchy(id: string, items: seq<Item>, now: int)
      modifies this
      ensures hierarchies == Saved(old(hierarchies), id, items, now)
    {
      var index := FindIndex(hierarchies, id);
      if index < 0 {
        var newHierarchy := Hierarchy(id, NameFor(|hierarchies|), Some(now), Some(now), items);
        hierarchies := [newHierarchy] + hierarchies;
        return;
      }
      var hierarchy := hierarchies[index];
      hierarchy := hierarchy.(updateDate := Some(now));
      hierarchy := hierarchy.(items := items);
      hierarchies := hierarchies[index := hierarchy];
    }

    /** The `removeHierarchy` reducer. */
    method RemoveHierarchy(id: string)
      modifies this
      ensures hierarchies == Removed(old(hierarchies), id)
    {
      var hierarchyIndex := FindIndex(hierarchies, id);
      if hierarchyIndex >= 0 {
        hierarchies := hierarchies[..hierarchyIndex] + hierarchies[hierarchyIndex + 1..];
      }
    }
  }
}
