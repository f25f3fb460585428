/**
 * Order independence of the win32app sidebar shell's batches. Two
 * commands.update batches that hold the same entries in different orders
 * leave the same records, and every list holds the same tabs in the same
 * order, as long as each batch names every tab once and no two siblings
 * share a position key. The element numbers create_item hands out follow
 * the order of the batch, so lists are compared through the tab ids of
 * their elements.
 */
module WinShellOrder {
  import opened Wrappers
  import JsString
  import opened WinShell

  function EntryId(x: Entry): Id {
    match x
    case Full(t) => t.id
    case Removal(id) => id
  }

  /** No two entries of a batch name the same tab. */
  predicate DistinctIds(es: seq<Entry>) {
    forall i, j :: 0 <= i < j < |es| ==> EntryId(es[i]) != EntryId(es[j])
  }

  /** Some entry of the batch names the tab. */
  predicate Mentions(es: seq<Entry>, id: Id) {
    exists x :: x in es && EntryId(x) == id
  }

  /** Some full tuple of the batch names the tab. */
  predicate HasFull(es: seq<Entry>, id: Id) {
    exists x :: x in es && x.Full? && x.tab.id == id
  }

  /** Element x is listed in the same lists in a as in b. */
  ghost predicate Stays(a: map<Elem, seq<Elem>>, b: map<Elem, seq<Elem>>, x: Elem) {
    forall l :: x in ListAt(a, l) <==> x in ListAt(b, l)
  }

  // ------------------------------------------------------------ entries

  lemma DistinctPrefix(es: seq<Entry>)
    requires DistinctIds(es) && es != []
    ensures DistinctIds(es[..|es| - 1])
  {
    var p := es[..|es| - 1];
    assert forall i :: 0 <= i < |p| ==> p[i] == es[i];
  }

  /** The last entry's tab is named by no earlier entry. */
  lemma LastNotMentioned(es: seq<Entry>)
    requires DistinctIds(es) && es != []
    ensures !Mentions(es[..|es| - 1], EntryId(es[|es| - 1]))
  {
    var p := es[..|es| - 1];
    forall x | x in p
      ensures EntryId(x) != EntryId(es[|es| - 1])
    {
      var i :| 0 <= i < |p| && p[i] == x;
      assert es[i] == x;
    }
  }

  /** In a batch that names every tab once, an entry is found by its tab. */
  lemma SameEntry(es: seq<Entry>, x: Entry, y: Entry)
    requires DistinctIds(es) && x in es && y in es && EntryId(x) == EntryId(y)
    ensures x == y
  {
    var i :| 0 <= i < |es| && es[i] == x;
    var j :| 0 <= j < |es| && es[j] == y;
    assert EntryId(es[i]) == EntryId(es[j]);
  }

  lemma Snoc(p: seq<Entry>, y: Entry)
    ensures forall id :: Mentions(p + [y], id) <==> Mentions(p, id) || EntryId(y) == id
    ensures forall id :: HasFull(p + [y], id) <==> HasFull(p, id) || (y.Full? && y.tab.id == id)
    ensures forall x :: x in p + [y] <==> x in p || x == y
  {
    forall id | Mentions(p, id)
      ensures Mentions(p + [y], id)
    {
      var x :| x in p && EntryId(x) == id;
      assert x in p + [y];
    }
    forall id | HasFull(p, id)
      ensures HasFull(p + [y], id)
    {
      var x :| x in p && x.Full? && x.tab.id == id;
      assert x in p + [y];
    }
    assert y in p + [y];
  }

  // ------------------------------------------------------------ lists

  lemma DetachStays(lists: map<Elem, seq<Elem>>, e: Elem, x: Elem)
    requires x != e
    ensures Stays(lists, Detach(lists, e), x)
  {
    forall l
      ensures x in ListAt(lists, l) <==> x in ListAt(Detach(lists, e), l)
    {
      DetachAt(lists, e, l);
      WithoutSpec(ListAt(lists, l), e);
    }
  }

  /** Two records of a valid state have different elements. */
  lemma ElemsDiffer(d: Sidebar, i: Id, j: Id)
    requires Valid(d) && i in d.items && j in d.items && i != j
    ensures d.items[i].elem != d.items[j].elem
  {
  }

  /** A list key at or past next holds nothing in a valid state. */
  lemma FreshEmpty(d: Sidebar, l: Elem)
    requires Valid(d) && l >= d.next
    ensures ListAt(d.lists, l) == []
  {
  }

  // ------------------------------------------------------------ the first pass

  /**
   * What the first pass has done after the entries p, whatever their
   * order: a tab has a record when a full tuple names it, or when it had
   * one and no entry names it; the records no entry names are untouched
   * and their elements listed where they were; a known tab keeps its
   * element; a created tab's element is fresh.
   */
  ghost predicate After1(d: Sidebar, p: seq<Entry>, r: Sidebar) {
    r.next >= d.next &&
    (forall id :: id in r.items <==> HasFull(p, id) || (id in d.items && !Mentions(p, id))) &&
    (forall id :: id in d.items && !Mentions(p, id) ==>
      r.items[id] == d.items[id] && Stays(d.lists, r.lists, d.items[id].elem)) &&
    (forall id :: id in d.items && HasFull(p, id) ==> r.items[id].elem == d.items[id].elem) &&
    (forall id :: id !in d.items && HasFull(p, id) ==> r.items[id].elem >= d.next)
  }

  lemma After1Known(d: Sidebar, p: seq<Entry>, r: Sidebar, t: TabData)
    requires Valid(r) && After1(d, p, r) && !Mentions(p, t.id) && t.id in r.items
    ensures After1(d, p + [Full(t)], Updated(r, t))
  {
    forall id | id in r.items && id != t.id
      ensures r.items[id].elem != r.items[t.id].elem
    {
      ElemsDiffer(r, id, t.id);
    }
    After1Restyled(d, p, r, Updated(r, t), t);
  }

  /** Restyling a known tab, and detaching it when it moves, leaves every other element where it was. */
  lemma After1Restyled(d: Sidebar, p: seq<Entry>, r: Sidebar, r2: Sidebar, t: TabData)
    requires After1(d, p, r) && !Mentions(p, t.id) && t.id in r.items
    requires forall id :: id in r.items && id != t.id ==> r.items[id].elem != r.items[t.id].elem
    requires r2.items == r.items && r2.next == r.next
    requires r2.lists == r.lists || r2.lists == Detach(r.lists, r.items[t.id].elem)
    ensures After1(d, p + [Full(t)], r2)
  {
    Snoc(p, Full(t));
    var e := r.items[t.id].elem;
    forall id | id in d.items && !Mentions(p + [Full(t)], id)
      ensures Stays(r.lists, r2.lists, d.items[id].elem)
    {
      assert id in r.items && id != t.id;
      if r2.lists != r.lists {
        DetachStays(r.lists, e, d.items[id].elem);
      }
    }
  }

  lemma After1Created(d: Sidebar, p: seq<Entry>, r: Sidebar, t: TabData)
    requires Valid(r) && After1(d, p, r) && !Mentions(p, t.id) && t.id !in r.items
    ensures After1(d, p + [Full(t)], Updated(r, t))
  {
    FreshEmpty(r, r.next);
    After1Fresh(d, p, r, t);
  }

  /** Creating a tab lists nothing anew, since the fresh element's list was empty. */
  lemma After1Fresh(d: Sidebar, p: seq<Entry>, r: Sidebar, t: TabData)
    requires After1(d, p, r) && !Mentions(p, t.id) && t.id !in r.items && ListAt(r.lists, r.next) == []
    ensures After1(d, p + [Full(t)], Updated(r, t))
  {
    Snoc(p, Full(t));
    var r2 := Updated(r, t);
    assert r2 == Created(r, t);
    forall l
      ensures ListAt(r2.lists, l) == ListAt(r.lists, l)
    {
    }
    forall id | id in d.items && !Mentions(p + [Full(t)], id)
      ensures r2.items[id] == d.items[id] && Stays(d.lists, r2.lists, d.items[id].elem)
    {
      assert id != t.id && r2.items[id] == r.items[id];
    }
    forall id | id in d.items && HasFull(p + [Full(t)], id)
      ensures r2.items[id].elem == d.items[id].elem
    {
      assert id != t.id;
    }
  }

  lemma After1Removal(d: Sidebar, p: seq<Entry>, r: Sidebar, id: Id)
    requires Valid(r) && After1(d, p, r) && !Mentions(p, id) && Removed(r, id).Ran?
    ensures After1(d, p + [Removal(id)], Removed(r, id).dom)
  {
    forall j | j in r.items && j != id
      ensures r.items[j].elem != r.items[id].elem
    {
      ElemsDiffer(r, j, id);
    }
    After1Gone(d, p, r, Removed(r, id).dom, id);
  }

  /** Removing a tab detaches only its own element. */
  lemma After1Gone(d: Sidebar, p: seq<Entry>, r: Sidebar, r2: Sidebar, id: Id)
    requires After1(d, p, r) && !Mentions(p, id) && id in r.items
    requires forall j :: j in r.items && j != id ==> r.items[j].elem != r.items[id].elem
    requires r2.items == r.items - {id} && r2.next == r.next && r2.lists == Detach(r.lists, r.items[id].elem)
    ensures After1(d, p + [Removal(id)], r2)
  {
    Snoc(p, Removal(id));
    var e := r.items[id].elem;
    forall j | j in d.items && !Mentions(p + [Removal(id)], j)
      ensures Stays(r.lists, r2.lists, d.items[j].elem)
    {
      assert j in r.items && j != id;
      DetachStays(r.lists, e, d.items[j].elem);
    }
  }

  lemma {:induction false} Pass1After(d: Sidebar, es: seq<Entry>)
    requires Valid(d) && DistinctIds(es) && Pass1(d, es).Ran?
    ensures After1(d, es, Pass1(d, es).dom)
    decreases |es|
  {
    if es == [] {
      assert forall id :: !Mentions(es, id) && !HasFull(es, id);
      forall id | id in d.items
        ensures Stays(d.lists, d.lists, d.items[id].elem)
      {
      }
    } else {
      var p := es[..|es| - 1];
      var y := es[|es| - 1];
      assert es == p + [y];
      DistinctPrefix(es);
      LastNotMentioned(es);
      Pass1After(d, p);
      Pass1Valid(d, p);
      var r := Pass1(d, p).dom;
      match y
      case Full(t) =>
        if t.id in r.items {
          After1Known(d, p, r, t);
        } else {
          After1Created(d, p, r, t);
        }
      case Removal(id) =>
        After1Removal(d, p, r, id);
    }
  }

  // ------------------------------------------------------------ the second pass

  /** A placed tab: its record holds the tuple, and its element is in the target list and no other. */
  ghost predicate PlacedIn(g: Sidebar, t: TabData) {
    t.id in g.items && (t.parent.Some? ==> t.parent.value in g.items) &&
    g.items[t.id].parent == t.parent && g.items[t.id].position == Some(t.position) &&
    forall l :: g.items[t.id].elem in ListAt(g.lists, l) <==> l == TargetOf(g, t)
  }

  /**
   * What the second pass has done after the entries q, from the state r
   * the first pass left: the same records with the same elements; the
   * tabs no full tuple of q names untouched and listed where they were;
   * every tab of a full tuple of q placed.
   */
  ghost predicate After2(r: Sidebar, q: seq<Entry>, g: Sidebar) {
    (forall id :: id in g.items <==> id in r.items) &&
    (forall id :: id in r.items ==> g.items[id].elem == r.items[id].elem) &&
    (forall id :: id in r.items && !HasFull(q, id) ==>
      g.items[id] == r.items[id] && Stays(r.lists, g.lists, r.items[id].elem)) &&
    (forall y :: y in q && y.Full? ==> PlacedIn(g, y.tab))
  }

  /** A placement leaves an earlier placed tab where it was. */
  lemma PlacedInKept(g: Sidebar, t: TabData, u: TabData)
    requires Valid(g) && Placed(g, t).Ran? && PlacedIn(g, u) && u.id != t.id
    ensures PlacedIn(Placed(g, t).dom, u)
  {
    PlacedWhere(g, t);
    var h := Placed(g, t).dom;
    ElemsDiffer(g, u.id, t.id);
    assert TargetOf(h, u) == TargetOf(g, u);
    var x := g.items[u.id].elem;
    forall l
      ensures x in ListAt(h.lists, l) <==> x in ListAt(g.lists, l)
    {
    }
  }

  /** The placed tab itself. */
  lemma PlacedInNow(g: Sidebar, t: TabData)
    requires Valid(g) && Placed(g, t).Ran?
    ensures PlacedIn(Placed(g, t).dom, t)
  {
    PlacedList(g, t);
    PlacedWhere(g, t);
    var h := Placed(g, t).dom;
    assert TargetOf(h, t) == TargetOf(g, t);
  }

  lemma StaysTrans(a: map<Elem, seq<Elem>>, b: map<Elem, seq<Elem>>, c: map<Elem, seq<Elem>>, x: Elem)
    requires Stays(a, b, x) && Stays(b, c, x)
    ensures Stays(a, c, x)
  {
  }

  /** A placement stores the tuple's parent and position in the tab's record and touches no other record. */
  lemma PlacedRecords(g: Sidebar, t: TabData)
    requires Valid(g) && Placed(g, t).Ran?
    ensures t.id in g.items
    ensures Placed(g, t).dom.items == g.items[t.id := Item(t.parent, Some(t.position), g.items[t.id].elem)]
  {
    PlacedList(g, t);
  }

  /** A placement leaves the element of every other record where it was. */
  lemma PlacedStays(g: Sidebar, t: TabData, id: Id)
    requires Valid(g) && Placed(g, t).Ran? && id in g.items && id != t.id
    ensures Stays(g.lists, Placed(g, t).dom.lists, g.items[id].elem)
  {
    PlacedWhere(g, t);
    ElemsDiffer(g, id, t.id);
    var x := g.items[id].elem;
    var h := Placed(g, t).dom;
    forall l
      ensures x in ListAt(g.lists, l) <==> x in ListAt(h.lists, l)
    {
    }
  }

  /** After a placement, every tab of a full tuple placed so far, and the new one, is placed. */
  lemma PlacedAll(q: seq<Entry>, g: Sidebar, t: TabData)
    requires Valid(g) && !Mentions(q, t.id) && Placed(g, t).Ran?
    requires forall y :: y in q && y.Full? ==> PlacedIn(g, y.tab)
    ensures forall y :: y in q + [Full(t)] && y.Full? ==> PlacedIn(Placed(g, t).dom, y.tab)
  {
    forall y | y in q + [Full(t)] && y.Full?
      ensures PlacedIn(Placed(g, t).dom, y.tab)
    {
      if y == Full(t) {
        PlacedInNow(g, t);
      } else {
        assert y in q && EntryId(y) != t.id;
        PlacedInKept(g, t, y.tab);
      }
    }
  }

  lemma After2Step(r: Sidebar, q: seq<Entry>, g: Sidebar, t: TabData)
    requires Valid(g) && After2(r, q, g) && !Mentions(q, t.id) && Placed(g, t).Ran?
    ensures After2(r, q + [Full(t)], Placed(g, t).dom)
  {
    Snoc(q, Full(t));
    PlacedRecords(g, t);
    var h := Placed(g, t).dom;
    PlacedAll(q, g, t);
    forall id | id in r.items && !HasFull(q + [Full(t)], id)
      ensures h.items[id] == r.items[id] && Stays(r.lists, h.lists, r.items[id].elem)
    {
      PlacedStays(g, t, id);
      StaysTrans(r.lists, g.lists, h.lists, r.items[id].elem);
    }
  }

  lemma {:induction false} Pass2After(r: Sidebar, es: seq<Entry>)
    requires Valid(r) && DistinctIds(es) && Pass2(r, es).Ran?
    ensures After2(r, es, Pass2(r, es).dom)
    decreases |es|
  {
    if es == [] {
      assert forall id :: !HasFull(es, id);
      forall id | id in r.items
        ensures Stays(r.lists, r.lists, r.items[id].elem)
      {
      }
    } else {
      var q := es[..|es| - 1];
      var y := es[|es| - 1];
      assert es == q + [y];
      DistinctPrefix(es);
      LastNotMentioned(es);
      Pass2After(r, q);
      Pass2Valid(r, q);
      Snoc(q, y);
      if y.Full? {
        After2Step(r, q, Pass2(r, q).dom, y.tab);
      }
    }
  }

  // ------------------------------------------------------------ one batch, described without its order

  /** The list that holds an owner's children: the top list for a null owner, else its record's own list. */
  function OwnerList(d: Sidebar, o: Option<Id>): seq<Elem> {
    if o.None? then ListAt(d.lists, TOP)
    else if o.value in d.items then ListAt(d.lists, d.items[o.value].elem)
    else []
  }

  /** Tab i has a record, and its element is among o's children. */
  predicate ListedIn(d: Sidebar, o: Option<Id>, i: Id) {
    i in d.items && d.items[i].elem in OwnerList(d, o)
  }

  /** o's children before the batch, when o still has that element afterwards. */
  function OldOwnerList(d: Sidebar, es: seq<Entry>, o: Option<Id>): seq<Elem> {
    if o.None? then ListAt(d.lists, TOP)
    else if o.value in d.items && (HasFull(es, o.value) || !Mentions(es, o.value)) then ListAt(d.lists, d.items[o.value].elem)
    else []
  }

  /**
   * Where a batch leaves tab i, read off the entries as a set: a tab of a
   * full tuple is under the tuple's parent; a tab no entry names stays
   * under the owner it had, unless that owner's element is new.
   */
  predicate Expected(d: Sidebar, es: seq<Entry>, o: Option<Id>, i: Id) {
    if HasFull(es, i) then exists y :: y in es && y.Full? && y.tab.id == i && y.tab.parent == o
    else i in d.items && !Mentions(es, i) && d.items[i].elem in OldOwnerList(d, es, o)
  }

  /** The records a batch leaves: a full tuple's parent and position, and the untouched records as they were. */
  lemma RunRecords(d: Sidebar, es: seq<Entry>, i: Id)
    requires Valid(d) && DistinctIds(es) && Batch(d, es).Ran?
    ensures var f := Batch(d, es).dom;
      (i in f.items <==> HasFull(es, i) || (i in d.items && !Mentions(es, i))) &&
      (i in d.items && !Mentions(es, i) ==> f.items[i] == d.items[i]) &&
      (forall y :: y in es && y.Full? && y.tab.id == i ==>
        f.items[i].parent == y.tab.parent && f.items[i].position == Some(y.tab.position))
  {
    Pass1After(d, es);
    Pass1Valid(d, es);
    Pass2After(Pass1(d, es).dom, es);
  }

  /** A placed tab is among the children of its tuple's parent and of no other owner. */
  lemma ListedFull(f: Sidebar, t: TabData, o: Option<Id>)
    requires Valid(f) && PlacedIn(f, t)
    ensures ListedIn(f, o, t.id) <==> t.parent == o
  {
    var e := f.items[t.id].elem;
    if o.Some? && o.value in f.items && t.parent.Some? && o.value != t.parent.value {
      ElemsDiffer(f, o.value, t.parent.value);
    }
  }

  /** The owner list of an untouched tab's element, seen from before and after the batch. */
  lemma ListedUntouched(d: Sidebar, es: seq<Entry>, r: Sidebar, f: Sidebar, o: Option<Id>, i: Id)
    requires Valid(d) && After1(d, es, r) && After2(r, es, f)
    requires i in d.items && !Mentions(es, i)
    ensures ListedIn(f, o, i) <==> d.items[i].elem in OldOwnerList(d, es, o)
  {
    var x := d.items[i].elem;
    assert Stays(d.lists, r.lists, x) && Stays(r.lists, f.lists, x);
    if o.Some? && o.value in f.items && o.value !in d.items {
      FreshEmpty(d, f.items[o.value].elem);
    }
  }

  /** Where one batch leaves each tab, in terms of the entries as a set. */
  lemma RunListed(d: Sidebar, es: seq<Entry>, o: Option<Id>, i: Id)
    requires Valid(d) && DistinctIds(es) && Batch(d, es).Ran?
    ensures ListedIn(Batch(d, es).dom, o, i) <==> Expected(d, es, o, i)
  {
    var r := Pass1(d, es).dom;
    var f := Batch(d, es).dom;
    Pass1After(d, es);
    Pass1Valid(d, es);
    Pass2After(r, es);
    Pass2Valid(r, es);
    if HasFull(es, i) {
      var y :| y in es && y.Full? && y.tab.id == i;
      ListedFull(f, y.tab, o);
      forall z | z in es && z.Full? && z.tab.id == i
        ensures z == y
      {
        SameEntry(es, z, y);
      }
    } else if i in d.items && !Mentions(es, i) {
      ListedUntouched(d, es, r, f, o, i);
    }
  }

  /** What Expected and the records read depends only on which entries the batch holds. */
  lemma ExpectedSame(d: Sidebar, es: seq<Entry>, es': seq<Entry>, o: Option<Id>, i: Id)
    requires forall x :: x in es <==> x in es'
    ensures Expected(d, es, o, i) <==> Expected(d, es', o, i)
    ensures forall id :: Mentions(es, id) <==> Mentions(es', id)
    ensures forall id :: HasFull(es, id) <==> HasFull(es', id)
  {
    assert OldOwnerList(d, es, o) == OldOwnerList(d, es', o);
  }

  // ------------------------------------------------------------ lists as tab ids

  /** The tab ids of a list's elements, in order. */
  function Ids(d: Sidebar, s: seq<Elem>): (u: seq<Id>)
    ensures |u| == |s|
  {
    seq(|s|, k requires 0 <= k < |s| => ElemAt(d.elems, s[k]).id)
  }

  function PosOf(d: Sidebar, i: Id): Option<string> {
    if i in d.items then d.items[i].position else None
  }

  predicate Lt(a: Option<string>, b: Option<string>) {
    a.Some? && b.Some? && JsString.StrLess(a.value, b.value)
  }

  predicate DistinctSeq(u: seq<Id>) {
    forall j, k :: 0 <= j < k < |u| ==> u[j] != u[k]
  }

  /** No two siblings share a position key. */
  predicate UniqueKeys(d: Sidebar, s: seq<Elem>) {
    forall j, k :: 0 <= j < k < |s| ==> Key(d, s[j]) != Key(d, s[k])
  }

  lemma OwnerListSorted(f: Sidebar, o: Option<Id>)
    requires Valid(f) && SortedAll(f)
    ensures SortedList(f, OwnerList(f, o)) && ListOwned(f, OwnerList(f, o))
  {
  }

  /** Each element of an owned list names its record, whose key is the element's key. */
  lemma OwnedIds(f: Sidebar, s: seq<Elem>)
    requires Valid(f) && ListOwned(f, s)
    ensures forall k :: 0 <= k < |s| ==>
      Ids(f, s)[k] in f.items && f.items[Ids(f, s)[k]].elem == s[k] && Key(f, s[k]) == PosOf(f, Ids(f, s)[k])
  {
    forall k | 0 <= k < |s|
      ensures Ids(f, s)[k] in f.items && f.items[Ids(f, s)[k]].elem == s[k]
    {
      assert s[k] in s;
    }
  }

  /** An owner's children as tab ids: exactly the listed tabs, each once, in key order. */
  lemma ListIds(f: Sidebar, o: Option<Id>)
    requires Valid(f) && SortedAll(f)
    ensures var s := OwnerList(f, o); var u := Ids(f, s);
      (forall i :: i in u <==> ListedIn(f, o, i)) && DistinctSeq(u) &&
      (forall j, k :: 0 <= j < k < |u| ==> Le(PosOf(f, u[j]), PosOf(f, u[k]))) &&
      (UniqueKeys(f, s) ==> forall j, k :: 0 <= j < k < |u| ==> Lt(PosOf(f, u[j]), PosOf(f, u[k])))
  {
    var s := OwnerList(f, o);
    var u := Ids(f, s);
    OwnerListSorted(f, o);
    OwnedIds(f, s);
    forall i | ListedIn(f, o, i)
      ensures i in u
    {
      var k :| 0 <= k < |s| && s[k] == f.items[i].elem;
      assert u[k] == i;
    }
    forall j, k | 0 <= j < k < |u|
      ensures u[j] != u[k] && Le(PosOf(f, u[j]), PosOf(f, u[k]))
    {
    }
    if UniqueKeys(f, s) {
      forall j, k | 0 <= j < k < |u|
        ensures Lt(PosOf(f, u[j]), PosOf(f, u[k]))
      {
        JsString.StrLessTotal(Key(f, s[j]).value, Key(f, s[k]).value);
      }
    }
  }

  lemma TailIds(u: seq<Id>)
    requires DistinctSeq(u) && u != []
    ensures DistinctSeq(u[1..])
    ensures forall i :: i in u[1..] <==> i in u && i != u[0]
  {
    forall i | i in u[1..]
      ensures i != u[0]
    {
      var k :| 0 <= k < |u[1..]| && u[1..][k] == i;
      assert u[k + 1] == i;
    }
    forall i | i in u && i != u[0]
      ensures i in u[1..]
    {
      var k :| 0 <= k < |u| && u[k] == i;
      assert u[1..][k - 1] == i;
    }
  }

  /** The ids a sequence holds. */
  ghost function IdSet(u: seq<Id>): set<Id> {
    set i | i in u
  }

  /** A sequence holding each id once has as many ids as elements. */
  lemma {:induction false} DistinctCard(u: seq<Id>)
    requires DistinctSeq(u)
    ensures |IdSet(u)| == |u|
    decreases |u|
  {
    if u == [] {
      assert IdSet(u) == {};
    } else {
      TailIds(u);
      DistinctCard(u[1..]);
      assert IdSet(u) == IdSet(u[1..]) + {u[0]};
    }
  }

  /** Dropping the first id keeps an id sequence in (strict) key order. */
  lemma TailOrder(f: Sidebar, u: seq<Id>)
    requires u != []
    ensures (forall j, k :: 0 <= j < k < |u| ==> Lt(PosOf(f, u[j]), PosOf(f, u[k]))) ==>
      forall j, k :: 0 <= j < k < |u[1..]| ==> Lt(PosOf(f, u[1..][j]), PosOf(f, u[1..][k]))
    ensures (forall j, k :: 0 <= j < k < |u| ==> Le(PosOf(f, u[j]), PosOf(f, u[k]))) ==>
      forall j, k :: 0 <= j < k < |u[1..]| ==> Le(PosOf(f, u[1..][j]), PosOf(f, u[1..][k]))
  {
    assert forall n :: 0 <= n < |u[1..]| ==> u[1..][n] == u[n + 1];
  }

  /**
   * Two id sequences holding the same tabs once each, one strictly in
   * key order and the other in key order, are the same sequence.
   */
  lemma {:induction false} SameOrder(f: Sidebar, u: seq<Id>, v: seq<Id>)
    requires DistinctSeq(u) && DistinctSeq(v)
    requires forall i :: i in u <==> i in v
    requires forall j, k :: 0 <= j < k < |u| ==> Lt(PosOf(f, u[j]), PosOf(f, u[k]))
    requires forall j, k :: 0 <= j < k < |v| ==> Le(PosOf(f, v[j]), PosOf(f, v[k]))
    ensures u == v
    decreases |u|
  {
    DistinctCard(u);
    DistinctCard(v);
    assert IdSet(u) == IdSet(v);
    if u != [] {
      assert u[0] in u && v[0] in v;
      var k :| 0 <= k < |u| && u[k] == v[0];
      var m :| 0 <= m < |v| && v[m] == u[0];
      var first, other := PosOf(f, u[0]), PosOf(f, u[k]);
      assert other == PosOf(f, v[0]) && first == PosOf(f, v[m]);
      assert k > 0 ==> Lt(first, other);
      assert m > 0 ==> Le(other, first);
      assert k == 0 || m == 0;
      TailIds(u);
      TailIds(v);
      var u', v' := u[1..], v[1..];
      TailOrder(f, u);
      TailOrder(f, v);
      SameOrder(f, u', v');
      assert u == [u[0]] + u' && v == [v[0]] + v';
    }
  }

  // ------------------------------------------------------------ two orders of one batch

  /**
   * Two batches holding the same entries, each naming every tab once:
   * when both finish, they leave records for the same tabs, with the same
   * parent and position.
   */
  lemma BatchRecordsAgree(d: Sidebar, es: seq<Entry>, es': seq<Entry>, i: Id)
    requires Valid(d) && DistinctIds(es) && DistinctIds(es') && multiset(es) == multiset(es')
    requires Batch(d, es).Ran? && Batch(d, es').Ran?
    ensures var f, f' := Batch(d, es).dom, Batch(d, es').dom;
      (i in f.items <==> i in f'.items) &&
      (i in f.items ==> f.items[i].parent == f'.items[i].parent && f.items[i].position == f'.items[i].position)
  {
    assert forall x :: x in es <==> x in es' by {
      forall x
        ensures x in es <==> x in es'
      {
        assert x in multiset(es) <==> x in multiset(es');
      }
    }
    ExpectedSame(d, es, es', None, i);
    RunRecords(d, es, i);
    RunRecords(d, es', i);
    if HasFull(es, i) {
      var y :| y in es && y.Full? && y.tab.id == i;
      assert y in es';
    }
  }

  /**
   * commands.update does not depend on the order of its batch: two
   * batches holding the same entries, each naming every tab once, that
   * both finish leave every owner with the same child tabs in the same
   * order, when those siblings have distinct position keys.
   */
  lemma BatchOrderIndependent(d: Sidebar, es: seq<Entry>, es': seq<Entry>, o: Option<Id>)
    requires Valid(d) && SortedAll(d) && DistinctIds(es) && DistinctIds(es') && multiset(es) == multiset(es')
    requires Batch(d, es).Ran? && Batch(d, es').Ran?
    requires UniqueKeys(Batch(d, es).dom, OwnerList(Batch(d, es).dom, o))
    ensures Ids(Batch(d, es).dom, OwnerList(Batch(d, es).dom, o)) ==
            Ids(Batch(d, es').dom, OwnerList(Batch(d, es').dom, o))
  {
    var f, f' := Batch(d, es).dom, Batch(d, es').dom;
    BatchValid(d, es);
    BatchValid(d, es');
    BatchSorted(d, es);
    BatchSorted(d, es');
    assert forall x :: x in es <==> x in es' by {
      forall x
        ensures x in es <==> x in es'
      {
        assert x in multiset(es) <==> x in multiset(es');
      }
    }
    var u, v := Ids(f, OwnerList(f, o)), Ids(f', OwnerList(f', o));
    ListIds(f, o);
    ListIds(f', o);
    forall i
      ensures i in u <==> i in v
    {
      RunListed(d, es, o, i);
      RunListed(d, es', o, i);
      ExpectedSame(d, es, es', o, i);
    }
    forall k | 0 <= k < |v|
      ensures PosOf(f', v[k]) == PosOf(f, v[k])
    {
      BatchRecordsAgree(d, es, es', v[k]);
    }
    forall j, k | 0 <= j < k < |v|
      ensures Le(PosOf(f, v[j]), PosOf(f, v[k]))
    {
      assert Le(PosOf(f', v[j]), PosOf(f', v[k]));
    }
    SameOrder(f, u, v);
  }

  /** commands.view does not depend on the order of its tuples either, whatever the sidebar showed before. */
  lemma ViewedOrderIndependent(d: Sidebar, ts: seq<TabData>, ts': seq<TabData>, o: Option<Id>)
    requires Valid(d) && DistinctIds(AsEntries(ts)) && DistinctIds(AsEntries(ts'))
    requires multiset(AsEntries(ts)) == multiset(AsEntries(ts'))
    requires Viewed(d, ts).Ran? && Viewed(d, ts').Ran?
    requires UniqueKeys(Viewed(d, ts).dom, OwnerList(Viewed(d, ts).dom, o))
    ensures Ids(Viewed(d, ts).dom, OwnerList(Viewed(d, ts).dom, o)) ==
            Ids(Viewed(d, ts').dom, OwnerList(Viewed(d, ts').dom, o))
  {
    assert Valid(Cleared(d)) && SortedAll(Cleared(d));
    BatchOrderIndependent(Cleared(d), AsEntries(ts), AsEntries(ts'), o);
  }
}
