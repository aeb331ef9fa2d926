/**
 * The data model of the editor: an ordered forest of named words.
 *
 * A word (`Item`) has an optional id, a name and an ordered list of
 * sub-words.  The editor identifies words by object identity; the model
 * identifies them by id, and `Unique` (every word carries an id and no id
 * occurs twice) is what makes the two agree.
 */
module Forest {

  type Id = string

  datatype Option<T> = None | Some(value: T)

  /** A word: `id` is optional because the export strips it. */
  datatype Item = Item(id: Option<Id>, name: string, items: seq<Item>)

  /** A parent/child link; the parent key `None` stands for the root list. */
  type Link = (Option<Id>, Option<Id>)

  // ---------------------------------------------------------------------
  // Observations of a forest
  // ---------------------------------------------------------------------

  /** The ids of every word of `s`, in depth-first (preorder) order. */
  function Ids(s: seq<Item>): seq<Option<Id>>
  {
    if s == [] then [] else [s[0].id] + Ids(s[0].items) + Ids(s[1..])
  }

  /** Every word of `s` (each with its subtree), in preorder. */
  function Nodes(s: seq<Item>): seq<Item>
  {
    if s == [] then [] else [s[0]] + Nodes(s[0].items) + Nodes(s[1..])
  }

  /**
   * The parent/child links of `s`, in preorder, where `p` is the key of
   * the word (or root list) that owns `s`.
   */
  function Links(s: seq<Item>, p: Option<Id>): seq<Link>
  {
    if s == [] then [] else [(p, s[0].id)] + Links(s[0].items, s[0].id) + Links(s[1..], p)
  }

  /** The names of every word of `s`, in preorder. */
  function Names(s: seq<Item>): seq<string>
  {
    if s == [] then [] else [s[0].name] + Names(s[0].items) + Names(s[1..])
  }

  /** The number of words in the forest. */
  function Count(s: seq<Item>): nat
  {
    |Ids(s)|
  }

  predicate Contains(s: seq<Item>, x: Id)
  {
    Some(x) in Ids(s)
  }

  /** How many words of `s` carry the id `x`. */
  function Occ(s: seq<Item>, x: Id): nat
  {
    multiset(Ids(s))[Some(x)]
  }

  predicate UniqueSeq(q: seq<Option<Id>>)
  {
    forall v | v in multiset(q) :: v.Some? && multiset(q)[v] == 1
  }

  /** Every word has an id and no id occurs twice in the forest. */
  predicate Unique(s: seq<Item>)
  {
    UniqueSeq(Ids(s))
  }

  // ---------------------------------------------------------------------
  // Lookups
  // ---------------------------------------------------------------------

  /**
   * The position of the word with id `x` in the list `l`, or -1
   * (`indexOf`, `findIndex`, and `includes` when compared with 0).
   */
  function IndexOf(l: seq<Item>, x: Id): (i: int)
    ensures -1 <= i < |l|
    ensures 0 <= i ==> l[i].id == Some(x) && forall k | 0 <= k < i :: l[k].id != Some(x)
    ensures i < 0 ==> forall k | 0 <= k < |l| :: l[k].id != Some(x)
  {
    if l == [] then -1
    else if l[0].id == Some(x) then 0
    else
      var r := IndexOf(l[1..], x);
      if r < 0 then -1 else r + 1
  }

  /** `l.includes(x)`: the word `x` is one of the entries of `l`. */
  predicate HasChild(l: seq<Item>, x: Id)
  {
    IndexOf(l, x) >= 0
  }

  /** The first word (in preorder) whose id is `x`. */
  function Find(s: seq<Item>, x: Id): (r: Option<Item>)
    ensures r.Some? <==> Contains(s, x)
    ensures r.Some? ==> r.value.id == Some(x)
  {
    if s == [] then None
    else if s[0].id == Some(x) then Some(s[0])
    else match Find(s[0].items, x)
      case Some(u) => Some(u)
      case None => Find(s[1..], x)
  }

  // ---------------------------------------------------------------------
  // In-place update of one word's list of sub-words
  // ---------------------------------------------------------------------

  /**
   * The forest after the `items` array of the word with id `t` has been
   * replaced by `f` of itself; every other word keeps its fields.
   */
  function Edit(s: seq<Item>, t: Id, f: seq<Item> -> seq<Item>): seq<Item>
  {
    if s == [] then []
    else
      [s[0].(items := if s[0].id == Some(t) then f(s[0].items) else Edit(s[0].items, t, f))]
      + Edit(s[1..], t, f)
  }

  // ---------------------------------------------------------------------
  // Structural lemmas
  // ---------------------------------------------------------------------

  lemma {:induction false} IdsConcat(a: seq<Item>, b: seq<Item>)
    ensures Ids(a + b) == Ids(a) + Ids(b)
  {
    if a != [] {
      assert (a + b)[0] == a[0];
      assert (a + b)[1..] == a[1..] + b;
      IdsConcat(a[1..], b);
    } else {
      assert a + b == b;
    }
  }

  lemma {:induction false} LinksConcat(a: seq<Item>, b: seq<Item>, p: Option<Id>)
    ensures Links(a + b, p) == Links(a, p) + Links(b, p)
  {
    if a != [] {
      assert (a + b)[0] == a[0];
      assert (a + b)[1..] == a[1..] + b;
      var h := [(p, a[0].id)] + Links(a[0].items, a[0].id);
      assert Links(a + b, p) == h + Links(a[1..] + b, p);
      assert Links(a, p) == h + Links(a[1..], p);
      LinksConcat(a[1..], b, p);
    } else {
      assert a + b == b;
    }
  }

  lemma {:induction false} NamesConcat(a: seq<Item>, b: seq<Item>)
    ensures Names(a + b) == Names(a) + Names(b)
  {
    if a != [] {
      assert (a + b)[0] == a[0];
      assert (a + b)[1..] == a[1..] + b;
      NamesConcat(a[1..], b);
    } else {
      assert a + b == b;
    }
  }

  /** The ids and links of a list split around its entry `i`. */
  lemma {:induction false} SplitAt(s: seq<Item>, i: nat, p: Option<Id>)
    requires i < |s|
    ensures Ids(s) == Ids(s[..i]) + Ids([s[i]]) + Ids(s[i + 1..])
    ensures Ids(s[..i] + s[i + 1..]) == Ids(s[..i]) + Ids(s[i + 1..])
    ensures Links(s, p) == Links(s[..i], p) + Links([s[i]], p) + Links(s[i + 1..], p)
    ensures Links(s[..i] + s[i + 1..], p) == Links(s[..i], p) + Links(s[i + 1..], p)
  {
    assert s == s[..i] + [s[i]] + s[i + 1..];
    IdsConcat(s[..i] + [s[i]], s[i + 1..]);
    IdsConcat(s[..i], [s[i]]);
    IdsConcat(s[..i], s[i + 1..]);
    LinksConcat(s[..i] + [s[i]], s[i + 1..], p);
    LinksConcat(s[..i], [s[i]], p);
    LinksConcat(s[..i], s[i + 1..], p);
  }

  /** The names of a list split around its entry `i`. */
  lemma {:induction false} SplitNames(s: seq<Item>, i: nat)
    requires i < |s|
    ensures Names(s) == Names(s[..i]) + Names([s[i]]) + Names(s[i + 1..])
    ensures Names(s[..i] + s[i + 1..]) == Names(s[..i]) + Names(s[i + 1..])
  {
    assert s == s[..i] + [s[i]] + s[i + 1..];
    NamesConcat(s[..i] + [s[i]], s[i + 1..]);
    NamesConcat(s[..i], [s[i]]);
    NamesConcat(s[..i], s[i + 1..]);
  }

  /** The observations of a one-word list. */
  lemma {:induction false} Single(u: Item, p: Option<Id>)
    ensures Ids([u]) == [u.id] + Ids(u.items)
    ensures Links([u], p) == [(p, u.id)] + Links(u.items, u.id)
    ensures Nodes([u]) == [u] + Nodes(u.items)
    ensures Names([u]) == [u.name] + Names(u.items)
  {
    assert [u][1..] == [];
  }

  /** The links of a list are exactly its ids, each with the key of its parent. */
  lemma {:induction false} LinksIds(s: seq<Item>, p: Option<Id>)
    ensures |Links(s, p)| == |Ids(s)|
    ensures forall i | 0 <= i < |Ids(s)| :: Links(s, p)[i].1 == Ids(s)[i]
  {
    if s != [] {
      LinksIds(s[0].items, s[0].id);
      LinksIds(s[1..], p);
    }
  }

  /** A word of the forest has its id among the forest's ids. */
  lemma {:induction false} NodeIdIn(s: seq<Item>, u: Item)
    requires u in Nodes(s)
    ensures u.id in Ids(s)
  {
    if u != s[0] {
      if u in Nodes(s[0].items) {
        NodeIdIn(s[0].items, u);
      } else {
        NodeIdIn(s[1..], u);
      }
    }
  }

  /** The sub-words of a word of the forest are words of the forest. */
  lemma {:induction false} NodesClosed(s: seq<Item>, u: Item, w: Item)
    requires u in Nodes(s) && w in u.items
    ensures w in Nodes(s)
  {
    if u == s[0] {
      var k :| 0 <= k < |u.items| && u.items[k] == w;
      ChildInNodes(u.items, k);
    } else if u in Nodes(s[0].items) {
      NodesClosed(s[0].items, u, w);
    } else {
      NodesClosed(s[1..], u, w);
    }
  }

  lemma {:induction false} ChildInNodes(l: seq<Item>, k: nat)
    requires k < |l|
    ensures l[k] in Nodes(l)
  {
    if k > 0 {
      ChildInNodes(l[1..], k - 1);
    }
  }

  lemma {:induction false} UniqueSeqConcat(a: seq<Option<Id>>, b: seq<Option<Id>>)
    ensures UniqueSeq(a + b) <==> UniqueSeq(a) && UniqueSeq(b) && multiset(a) !! multiset(b)
  {
    var ma, mb := multiset(a), multiset(b);
    assert multiset(a + b) == ma + mb;
    if UniqueSeq(a + b) {
      forall v | v in ma ensures v.Some? && ma[v] == 1 {
        assert (ma + mb)[v] == ma[v] + mb[v];
      }
      forall v | v in mb ensures v.Some? && mb[v] == 1 {
        assert (ma + mb)[v] == ma[v] + mb[v];
      }
      forall v | v in ma ensures v !in mb {
        assert (ma + mb)[v] == ma[v] + mb[v];
      }
    }
  }

  /** What uniqueness of a non-empty forest says about its first word. */
  lemma {:induction false} UniqueParts(s: seq<Item>)
    requires Unique(s) && s != []
    ensures s[0].id.Some?
    ensures Unique(s[0].items) && Unique(s[1..]) && Unique([s[0]])
    ensures s[0].id !in Ids(s[0].items) && s[0].id !in Ids(s[1..])
    ensures multiset(Ids([s[0]])) !! multiset(Ids(s[1..]))
    ensures multiset(Ids(s[0].items)) !! multiset(Ids(s[1..]))
  {
    Single(s[0], None);
    var a, b, c := [s[0].id], Ids(s[0].items), Ids(s[1..]);
    assert Ids(s) == (a + b) + c;
    UniqueSeqConcat(a + b, c);
    UniqueSeqConcat(a, b);
    assert s[0].id in multiset(Ids(s));
  }

  /** In a unique forest an id that occurs does so exactly once. */
  lemma {:induction false} UniqueOcc(s: seq<Item>, x: Id)
    requires Unique(s) && Contains(s, x)
    ensures Occ(s, x) == 1
  {
    assert Some(x) in multiset(Ids(s));
  }

  /** An entry found at two indices is counted at least twice. */
  lemma {:induction false} TwiceCounted(q: seq<Option<Id>>, lo: nat, hi: nat)
    requires lo < hi < |q| && q[lo] == q[hi]
    ensures multiset(q)[q[lo]] >= 2
  {
    assert q == q[..hi] + q[hi..];
    assert q[lo] in multiset(q[..hi]) by { assert q[..hi][lo] == q[lo]; }
    assert q[hi] in multiset(q[hi..]) by { assert q[hi..][0] == q[hi]; }
    assert multiset(q) == multiset(q[..hi]) + multiset(q[hi..]);
  }

  /** In a sequence without repetitions equal entries sit at one index. */
  lemma {:induction false} UniqueSeqIndex(q: seq<Option<Id>>, i: nat, j: nat)
    requires UniqueSeq(q) && i < |q| && j < |q| && q[i] == q[j]
    ensures i == j
  {
    assert q[i] in multiset(q);
    if i < j {
      TwiceCounted(q, i, j);
      assert false;
    } else if j < i {
      TwiceCounted(q, j, i);
      assert false;
    }
  }

  /** In a unique forest every word has exactly one link to its parent. */
  lemma {:induction false} LinkOnce(s: seq<Item>, p: Option<Id>, q1: Option<Id>, q2: Option<Id>, x: Id)
    requires Unique(s) && (q1, Some(x)) in Links(s, p) && (q2, Some(x)) in Links(s, p)
    ensures q1 == q2
  {
    LinksIds(s, p);
    var i :| 0 <= i < |Links(s, p)| && Links(s, p)[i] == (q1, Some(x));
    var j :| 0 <= j < |Links(s, p)| && Links(s, p)[j] == (q2, Some(x));
    UniqueSeqIndex(Ids(s), i, j);
  }

  /** An entry of a list is linked to the list's owner. */
  lemma {:induction false} TopLink(l: seq<Item>, p: Option<Id>, k: nat)
    requires k < |l|
    ensures (p, l[k].id) in Links(l, p)
  {
    if k > 0 {
      TopLink(l[1..], p, k - 1);
    }
  }

  /** A sub-word of a word of the forest is linked to that word. */
  lemma {:induction false} ChildLink(s: seq<Item>, p: Option<Id>, u: Item, k: nat)
    requires u in Nodes(s) && k < |u.items|
    ensures (u.id, u.items[k].id) in Links(s, p)
  {
    if u == s[0] {
      TopLink(u.items, u.id, k);
    } else if u in Nodes(s[0].items) {
      ChildLink(s[0].items, s[0].id, u, k);
    } else {
      ChildLink(s[1..], p, u, k);
    }
  }

  /** Uniqueness of a concatenation. */
  lemma {:induction false} UniqueConcat(a: seq<Item>, b: seq<Item>)
    ensures Unique(a + b) <==> Unique(a) && Unique(b) && multiset(Ids(a)) !! multiset(Ids(b))
  {
    IdsConcat(a, b);
    UniqueSeqConcat(Ids(a), Ids(b));
  }

  /** In a unique forest a word is the only one carrying its id. */
  lemma {:induction false} FindNode(s: seq<Item>, u: Item)
    requires Unique(s) && u in Nodes(s)
    ensures u.id.Some? && Find(s, u.id.value) == Some(u)
  {
    UniqueParts(s);
    var h := s[0];
    if u == h {
    } else if u in Nodes(h.items) {
      FindNode(h.items, u);
      NodeIdIn(h.items, u);
    } else {
      assert u in Nodes(s[1..]);
      FindNode(s[1..], u);
      NodeIdIn(s[1..], u);
      NotInHead(s, u.id.value);
    }
  }

  /** An id of the later entries of a unique forest is not in its first subtree. */
  lemma {:induction false} NotInHead(s: seq<Item>, x: Id)
    requires Unique(s) && s != [] && Some(x) in Ids(s[1..])
    ensures s[0].id != Some(x) && !Contains(s[0].items, x)
  {
    UniqueParts(s);
    assert Some(x) in multiset(Ids(s[1..]));
  }

  /** What `Find` returns is a word of the forest. */
  lemma {:induction false} FindInNodes(s: seq<Item>, x: Id)
    requires Contains(s, x)
    ensures Find(s, x).value in Nodes(s)
  {
    if s[0].id != Some(x) {
      if Contains(s[0].items, x) {
        FindInNodes(s[0].items, x);
      } else {
        FindInNodes(s[1..], x);
      }
    }
  }

  // ---------------------------------------------------------------------
  // Lemmas about Edit
  // ---------------------------------------------------------------------

  /** Editing a word that is not there changes nothing. */
  lemma {:induction false} EditAbsent(s: seq<Item>, t: Id, f: seq<Item> -> seq<Item>)
    requires !Contains(s, t)
    ensures Edit(s, t, f) == s
  {
    if s != [] {
      EditAbsent(s[0].items, t, f);
      EditAbsent(s[1..], t, f);
    }
  }

  /** How the occurrences of an id split over the first word and the rest. */
  lemma {:induction false} OccSplit(s: seq<Item>, t: Id)
    requires s != []
    ensures Occ(s, t) == (if s[0].id == Some(t) then 1 else 0) + Occ(s[0].items, t) + Occ(s[1..], t)
    ensures Contains(s, t) <==> Occ(s, t) > 0
    ensures Contains(s[0].items, t) <==> Occ(s[0].items, t) > 0
    ensures Contains(s[1..], t) <==> Occ(s[1..], t) > 0
  {
    assert Ids(s) == [s[0].id] + Ids(s[0].items) + Ids(s[1..]);
  }

  /** After editing the one word with id `t`, that word has `f` of its old list. */
  lemma {:induction false} EditFind(s: seq<Item>, t: Id, f: seq<Item> -> seq<Item>)
    requires Occ(s, t) == 1
    ensures Find(s, t).Some?
    ensures Find(Edit(s, t, f), t) == Some(Find(s, t).value.(items := f(Find(s, t).value.items)))
  {
    OccSplit(s, t);
    var h := s[0];
    if h.id == Some(t) {
    } else if Occ(h.items, t) == 1 {
      EditFind(h.items, t, f);
    } else {
      EditAbsent(h.items, t, f);
      EditFind(s[1..], t, f);
    }
  }

  /** Editing the one word with id `t` exchanges the ids of its old list for those of the new. */
  lemma {:induction false} EditIds(s: seq<Item>, t: Id, f: seq<Item> -> seq<Item>)
    requires Occ(s, t) == 1
    ensures Find(s, t).Some?
    ensures var l := Find(s, t).value.items;
      multiset(Ids(Edit(s, t, f))) + multiset(Ids(l)) == multiset(Ids(s)) + multiset(Ids(f(l)))
    decreases s, 1
  {
    OccSplit(s, t);
    if s[0].id == Some(t) {
      EditAbsent(s[1..], t, f);
      assert Edit(s, t, f) == [s[0].(items := f(s[0].items))] + s[1..];
    } else if Occ(s[0].items, t) == 1 {
      EditIdsInHead(s, t, f);
    } else {
      EditIdsInTail(s, t, f);
    }
  }

  lemma {:induction false} EditIdsInHead(s: seq<Item>, t: Id, f: seq<Item> -> seq<Item>)
    requires s != [] && s[0].id != Some(t) && Occ(s[0].items, t) == 1 && !Contains(s[1..], t)
    ensures Find(s, t).Some?
    ensures var l := Find(s, t).value.items;
      multiset(Ids(Edit(s, t, f))) + multiset(Ids(l)) == multiset(Ids(s)) + multiset(Ids(f(l)))
    decreases s, 0
  {
    var h := s[0];
    EditAbsent(s[1..], t, f);
    EditIds(h.items, t, f);
    var l := Find(h.items, t).value.items;
    assert Find(s, t) == Find(h.items, t);
    var e := Edit(h.items, t, f);
    assert Edit(s, t, f) == [h.(items := e)] + s[1..];
    assert Ids(s) == [h.id] + Ids(h.items) + Ids(s[1..]);
    assert Ids(Edit(s, t, f)) == [h.id] + Ids(e) + Ids(s[1..]) by {
      IdsConcat([h.(items := e)], s[1..]);
      Single(h.(items := e), None);
    }
    Regroup(multiset([h.id]), multiset(Ids(h.items)), multiset(Ids(e)), multiset(Ids(s[1..])),
            multiset(Ids(l)), multiset(Ids(f(l))));
  }

  lemma {:induction false} EditIdsInTail(s: seq<Item>, t: Id, f: seq<Item> -> seq<Item>)
    requires s != [] && s[0].id != Some(t) && !Contains(s[0].items, t) && Occ(s[1..], t) == 1
    ensures Find(s, t).Some?
    ensures var l := Find(s, t).value.items;
      multiset(Ids(Edit(s, t, f))) + multiset(Ids(l)) == multiset(Ids(s)) + multiset(Ids(f(l)))
    decreases s, 0
  {
    var h := s[0];
    EditAbsent(h.items, t, f);
    EditIds(s[1..], t, f);
    var l := Find(s[1..], t).value.items;
    assert Find(s, t) == Find(s[1..], t);
    var e := Edit(s[1..], t, f);
    assert Edit(s, t, f) == [h] + e;
    assert Ids(s) == [h.id] + Ids(h.items) + Ids(s[1..]);
    assert Ids(Edit(s, t, f)) == [h.id] + Ids(h.items) + Ids(e) by {
      IdsConcat([h], e);
      Single(h, None);
    }
    RegroupLast(multiset([h.id]) + multiset(Ids(h.items)), multiset(Ids(e)), multiset(Ids(s[1..])),
                multiset(Ids(l)), multiset(Ids(f(l))));
  }

  /** Multiset bookkeeping: replacing the middle part of a union. */
  lemma {:induction false} Regroup<T>(m0: multiset<T>, mh: multiset<T>, me: multiset<T>, mt: multiset<T>, ml: multiset<T>, mf: multiset<T>)
    requires me + ml == mh + mf
    ensures (m0 + me + mt) + ml == (m0 + mh + mt) + mf
  {
    assert (m0 + me + mt) + ml == (m0 + mt) + (me + ml);
    assert (m0 + mh + mt) + mf == (m0 + mt) + (mh + mf);
  }

  /** Multiset bookkeeping: replacing the last part of a union. */
  lemma {:induction false} RegroupLast<T>(m0: multiset<T>, me: multiset<T>, mt: multiset<T>, ml: multiset<T>, mf: multiset<T>)
    requires me + ml == mt + mf
    ensures (m0 + me) + ml == (m0 + mt) + mf
  {
    assert (m0 + me) + ml == m0 + (me + ml);
    assert (m0 + mt) + mf == m0 + (mt + mf);
  }

  /**
   * Editing the one word with id `t` replaces the links of its old list by
   * those of the new one, in place: every other link keeps its position in
   * preorder.  The out-parameters are the links before and after the block.
   */
  lemma {:induction false} EditLinks(s: seq<Item>, t: Id, f: seq<Item> -> seq<Item>, p: Option<Id>)
    returns (a: seq<Link>, b: seq<Link>)
    requires Occ(s, t) == 1
    ensures Find(s, t).Some?
    ensures Links(s, p) == a + Links(Find(s, t).value.items, Some(t)) + b
    ensures Links(Edit(s, t, f), p) == a + Links(f(Find(s, t).value.items), Some(t)) + b
    decreases s, 1
  {
    OccSplit(s, t);
    var h := s[0];
    if h.id == Some(t) {
      EditAbsent(s[1..], t, f);
      var r := Edit(s, t, f);
      assert r == [h.(items := f(h.items))] + s[1..];
      assert r[0].id == h.id && r[0].items == f(h.items) && r[1..] == s[1..];
      a, b := [(p, h.id)], Links(s[1..], p);
    } else if Occ(h.items, t) == 1 {
      a, b := EditLinksInHead(s, t, f, p);
    } else {
      a, b := EditLinksInTail(s, t, f, p);
    }
  }

  lemma {:induction false} EditLinksInHead(s: seq<Item>, t: Id, f: seq<Item> -> seq<Item>, p: Option<Id>)
    returns (a: seq<Link>, b: seq<Link>)
    requires s != [] && s[0].id != Some(t) && Occ(s[0].items, t) == 1 && !Contains(s[1..], t)
    ensures Find(s, t).Some?
    ensures Links(s, p) == a + Links(Find(s, t).value.items, Some(t)) + b
    ensures Links(Edit(s, t, f), p) == a + Links(f(Find(s, t).value.items), Some(t)) + b
    decreases s, 0
  {
    var h := s[0];
    var a', b' := EditLinks(h.items, t, f, h.id);
    var l := Find(h.items, t).value.items;
    var e := Edit(h.items, t, f);
    var rest := Links(s[1..], p);
    assert Find(s, t) == Find(h.items, t);
    assert Links(s, p) == [(p, h.id)] + Links(h.items, h.id) + rest;
    assert Links(Edit(s, t, f), p) == [(p, h.id)] + Links(e, h.id) + rest by {
      EditAbsent(s[1..], t, f);
      var h' := h.(items := e);
      assert Edit(s, t, f) == [h'] + s[1..];
      LinksConcat([h'], s[1..], p);
      Single(h', p);
    }
    a, b := [(p, h.id)] + a', b' + rest;
    Assoc5([(p, h.id)], a', Links(l, Some(t)), b', rest);
    Assoc5([(p, h.id)], a', Links(f(l), Some(t)), b', rest);
  }

  lemma {:induction false} EditLinksInTail(s: seq<Item>, t: Id, f: seq<Item> -> seq<Item>, p: Option<Id>)
    returns (a: seq<Link>, b: seq<Link>)
    requires s != [] && s[0].id != Some(t) && !Contains(s[0].items, t) && Occ(s[1..], t) == 1
    ensures Find(s, t).Some?
    ensures Links(s, p) == a + Links(Find(s, t).value.items, Some(t)) + b
    ensures Links(Edit(s, t, f), p) == a + Links(f(Find(s, t).value.items), Some(t)) + b
    decreases s, 0
  {
    var h := s[0];
    var a', b' := EditLinks(s[1..], t, f, p);
    var e := Edit(s[1..], t, f);
    var head := [(p, h.id)] + Links(h.items, h.id);
    assert Find(s, t) == Find(s[1..], t);
    assert Links(s, p) == head + Links(s[1..], p);
    assert Links(Edit(s, t, f), p) == head + Links(e, p) by {
      EditAbsent(h.items, t, f);
      assert Edit(s, t, f) == [h] + e;
      LinksConcat([h], e, p);
      Single(h, p);
    }
    a, b := head + a', b';
    var l := Find(s[1..], t).value.items;
    Assoc5(head, a', Links(l, Some(t)), b', []);
    Assoc5(head, a', Links(f(l), Some(t)), b', []);
    assert b' + [] == b';
  }

  /**
   * Editing the one word with id `t` replaces the names of its old list by
   * those of the new one, in place: every other name keeps its position in
   * preorder.
   */
  lemma {:induction false} EditNames(s: seq<Item>, t: Id, f: seq<Item> -> seq<Item>)
    returns (a: seq<string>, b: seq<string>)
    requires Occ(s, t) == 1
    ensures Find(s, t).Some?
    ensures Names(s) == a + Names(Find(s, t).value.items) + b
    ensures Names(Edit(s, t, f)) == a + Names(f(Find(s, t).value.items)) + b
    decreases s, 1
  {
    OccSplit(s, t);
    var h := s[0];
    if h.id == Some(t) {
      EditAbsent(s[1..], t, f);
      var r := Edit(s, t, f);
      assert r == [h.(items := f(h.items))] + s[1..];
      assert r[0].name == h.name && r[0].items == f(h.items) && r[1..] == s[1..];
      a, b := [h.name], Names(s[1..]);
    } else if Occ(h.items, t) == 1 {
      a, b := EditNamesInHead(s, t, f);
    } else {
      a, b := EditNamesInTail(s, t, f);
    }
  }

  lemma {:induction false} EditNamesInHead(s: seq<Item>, t: Id, f: seq<Item> -> seq<Item>)
    returns (a: seq<string>, b: seq<string>)
    requires s != [] && s[0].id != Some(t) && Occ(s[0].items, t) == 1 && !Contains(s[1..], t)
    ensures Find(s, t).Some?
    ensures Names(s) == a + Names(Find(s, t).value.items) + b
    ensures Names(Edit(s, t, f)) == a + Names(f(Find(s, t).value.items)) + b
    decreases s, 0
  {
    var h := s[0];
    var a', b' := EditNames(h.items, t, f);
    var l := Find(h.items, t).value.items;
    var e := Edit(h.items, t, f);
    var rest := Names(s[1..]);
    assert Find(s, t) == Find(h.items, t);
    assert Names(s) == [h.name] + Names(h.items) + rest;
    assert Names(Edit(s, t, f)) == [h.name] + Names(e) + rest by {
      EditAbsent(s[1..], t, f);
      var h' := h.(items := e);
      assert Edit(s, t, f) == [h'] + s[1..];
      NamesConcat([h'], s[1..]);
      Single(h', None);
    }
    a, b := [h.name] + a', b' + rest;
    Assoc5([h.name], a', Names(l), b', rest);
    Assoc5([h.name], a', Names(f(l)), b', rest);
  }

  lemma {:induction false} EditNamesInTail(s: seq<Item>, t: Id, f: seq<Item> -> seq<Item>)
    returns (a: seq<string>, b: seq<string>)
    requires s != [] && s[0].id != Some(t) && !Contains(s[0].items, t) && Occ(s[1..], t) == 1
    ensures Find(s, t).Some?
    ensures Names(s) == a + Names(Find(s, t).value.items) + b
    ensures Names(Edit(s, t, f)) == a + Names(f(Find(s, t).value.items)) + b
    decreases s, 0
  {
    var h := s[0];
    var a', b' := EditNames(s[1..], t, f);
    var e := Edit(s[1..], t, f);
    var head := [h.name] + Names(h.items);
    assert Find(s, t) == Find(s[1..], t);
    assert Names(s) == head + Names(s[1..]);
    assert Names(Edit(s, t, f)) == head + Names(e) by {
      EditAbsent(h.items, t, f);
      assert Edit(s, t, f) == [h] + e;
      NamesConcat([h], e);
      Single(h, None);
    }
    a, b := head + a', b';
    var l := Find(s[1..], t).value.items;
    Assoc5(head, a', Names(l), b', []);
    Assoc5(head, a', Names(f(l)), b', []);
    assert b' + [] == b';
  }

  lemma {:induction false} Assoc4<T>(x: seq<T>, a: seq<T>, b: seq<T>, y: seq<T>)
    ensures x + (a + b) + y == (x + a) + (b + y)
  {
  }

  /** Splitting a block that sits inside a longer sequence in two. */
  lemma {:induction false} Assoc3<T>(x: seq<T>, m1: seq<T>, m2: seq<T>, y: seq<T>)
    ensures x + (m1 + m2) + y == x + m1 + m2 + y
  {
  }

  /** Regrouping a block that sits inside a longer sequence. */
  lemma {:induction false} Assoc5<T>(x: seq<T>, a: seq<T>, m: seq<T>, b: seq<T>, y: seq<T>)
    ensures x + (a + m + b) + y == (x + a) + m + (b + y)
  {
  }
}
