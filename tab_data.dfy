/**
 * The legacy tab table of src/data.cpp. Tabs form a tree through their
 * parent ids and, among siblings, a doubly linked list through prev and
 * next; child_count caches the number of tabs below each tab. The SQLite
 * table (and the cache that mirrors it) is a map from id to row, ids and
 * counts are unbounded integers, NULL timestamps are 0 and now() is a
 * parameter.
 */
module TabTable {
  /** A row of the tabs table, with the columns the tree operations use. */
  datatype TabRow = TabRow(parent: int, prev: int, next: int, childCount: int, closedAt: int)

  /** Where place_tab puts a tab relative to the reference tab. */
  datatype TabRelation = Before | After | FirstChild | LastChild

  type Table = map<int, TabRow>

  /** What an operation leaves behind: the table, and the ids it reports to tab_updated, in order. */
  datatype Effect = Effect(tabs: Table, touched: seq<int>)

  predicate Distinct(s: seq<int>)
  {
    forall i, j :: 0 <= i < j < |s| ==> s[i] != s[j]
  }

  // ------------------------------------------------------------ pending lists

  /** tab_updated / window_updated on a pending list: id is appended unless already there. */
  function Noted(s: seq<int>, id: int): seq<int>
  {
    if id in s then s else s + [id]
  }

  /** The pending list after noting each id of ids in turn. */
  function NotedAll(s: seq<int>, ids: seq<int>): seq<int>
    decreases |ids|
  {
    if ids == [] then s else Noted(NotedAll(s, ids[..|ids| - 1]), ids[|ids| - 1])
  }

  /**
   * A pending list never holds an id twice, keeps what it held, and holds
   * exactly the ids held before or noted since.
   */
  lemma {:induction false} NotedAllSpec(s: seq<int>, ids: seq<int>)
    ensures Distinct(s) ==> Distinct(NotedAll(s, ids))
    ensures s <= NotedAll(s, ids)
    ensures forall x :: x in NotedAll(s, ids) <==> x in s || x in ids
    decreases |ids|
  {
    if ids != [] {
      var init := ids[..|ids| - 1];
      var last := ids[|ids| - 1];
      NotedAllSpec(s, init);
      assert ids == init + [last];
      var r := NotedAll(s, init);
      if last !in r {
        assert Distinct(r) ==> Distinct(r + [last]);
      }
    }
  }

  /** Noting a then b is noting a + b. */
  lemma {:induction false} NotedAllAppend(s: seq<int>, a: seq<int>, b: seq<int>)
    ensures NotedAll(NotedAll(s, a), b) == NotedAll(s, a + b)
    decreases |b|
  {
    if b == [] {
      assert a + b == a;
    } else {
      var b0 := b[..|b| - 1];
      NotedAllAppend(s, a, b0);
      assert (a + b)[..|a + b| - 1] == a + b0;
    }
  }

  // ------------------------------------------------------------ ancestor chains

  /**
   * Walking parent ids from p reaches a value <= 0 within n steps, and every
   * tab on the way is in the table: the condition under which the while
   * loop of change_child_count ends.
   */
  ghost predicate RootedIn(t: Table, p: int, n: nat)
    decreases n
  {
    p <= 0 || (p in t && n > 0 && RootedIn(t, t[p].parent, n - 1))
  }

  ghost predicate Rooted(t: Table, p: int)
  {
    exists n: nat :: RootedIn(t, p, n)
  }

  /** The tabs visited walking up from p with fuel n: p itself and its ancestors. */
  ghost function ChainIn(t: Table, p: int, n: nat): (c: seq<int>)
    requires RootedIn(t, p, n)
    ensures forall x :: x in c ==> x > 0 && x in t
    ensures p > 0 ==> c != [] && c[0] == p
    decreases n
  {
    if p <= 0 then [] else [p] + ChainIn(t, t[p].parent, n - 1)
  }

  /** p and its ancestors, nearest first; empty for p <= 0. */
  ghost function Chain(t: Table, p: int): (c: seq<int>)
    requires Rooted(t, p)
    ensures forall x :: x in c ==> x > 0 && x in t
  {
    var n: nat :| RootedIn(t, p, n); ChainIn(t, p, n)
  }

  /** More fuel changes nothing once the walk ends. */
  lemma {:induction false} FuelIrrelevant(t: Table, p: int, n: nat, m: nat)
    requires RootedIn(t, p, n) && n <= m
    ensures RootedIn(t, p, m) && ChainIn(t, p, m) == ChainIn(t, p, n)
    decreases n
  {
    if p > 0 {
      FuelIrrelevant(t, t[p].parent, n - 1, m - 1);
    }
  }

  lemma ChainOfRoot(t: Table, p: int)
    requires p <= 0
    ensures Rooted(t, p) && Chain(t, p) == []
  {
    assert RootedIn(t, p, 0);
  }

  /** The chain of a tab is the tab followed by its parent's chain. */
  lemma ChainUnfold(t: Table, p: int)
    requires Rooted(t, p) && p > 0
    ensures p in t && Rooted(t, t[p].parent)
    ensures Chain(t, p) == [p] + Chain(t, t[p].parent)
  {
    var n: nat :| RootedIn(t, p, n) && Chain(t, p) == ChainIn(t, p, n);
    var q := t[p].parent;
    assert RootedIn(t, q, n - 1) && ChainIn(t, p, n) == [p] + ChainIn(t, q, n - 1);
    var m: nat :| RootedIn(t, q, m) && Chain(t, q) == ChainIn(t, q, m);
    if m <= n - 1 {
      FuelIrrelevant(t, q, m, n - 1);
    } else {
      FuelIrrelevant(t, q, n - 1, m);
    }
  }

  /** A tab further up the chain is reached with correspondingly less fuel. */
  lemma {:induction false} ChainSuffix(t: Table, p: int, n: nat, i: nat)
    requires RootedIn(t, p, n) && i < |ChainIn(t, p, n)|
    ensures i <= n && RootedIn(t, ChainIn(t, p, n)[i], n - i)
    decreases i
  {
    if i > 0 {
      ChainSuffix(t, t[p].parent, n - 1, i - 1);
    }
  }

  /** A tab whose walk ends is not among its own ancestors. */
  lemma {:induction false} NotOwnAncestor(t: Table, p: int, n: nat)
    requires RootedIn(t, p, n) && p > 0
    ensures p !in ChainIn(t, t[p].parent, n - 1)
    decreases n
  {
    var q := t[p].parent;
    var c := ChainIn(t, q, n - 1);
    if p in c {
      var i :| 0 <= i < |c| && c[i] == p;
      ChainSuffix(t, q, n - 1, i);
      var k := n - 1 - i;
      NotOwnAncestor(t, p, k);
      FuelIrrelevant(t, q, k - 1, n - 1);
      assert false;
    }
  }

  /** A rooted tab is not on its parent's chain. */
  lemma NotInParentChain(t: Table, id: int)
    requires Rooted(t, id) && id > 0
    ensures id in t && Rooted(t, t[id].parent) && id !in Chain(t, t[id].parent)
  {
    var n: nat :| RootedIn(t, id, n);
    var q := t[id].parent;
    NotOwnAncestor(t, id, n);
    var m: nat :| RootedIn(t, q, m) && Chain(t, q) == ChainIn(t, q, m);
    if m <= n - 1 {
      FuelIrrelevant(t, q, m, n - 1);
    } else {
      FuelIrrelevant(t, q, n - 1, m);
    }
  }

  /** Each tab appears once on a chain: the walk of change_child_count never revisits a tab. */
  lemma {:induction false} ChainDistinct(t: Table, p: int)
    requires Rooted(t, p)
    ensures Distinct(Chain(t, p))
  {
    var n: nat :| RootedIn(t, p, n) && Chain(t, p) == ChainIn(t, p, n);
    ChainInDistinct(t, p, n);
  }

  lemma {:induction false} ChainInDistinct(t: Table, p: int, n: nat)
    requires RootedIn(t, p, n)
    ensures Distinct(ChainIn(t, p, n))
    decreases n
  {
    if p > 0 {
      ChainInDistinct(t, t[p].parent, n - 1);
      NotOwnAncestor(t, p, n);
      var c := ChainIn(t, p, n);
      forall i, j | 0 <= i < j < |c|
        ensures c[i] != c[j]
      {
        if i == 0 {
          assert c[j] in ChainIn(t, t[p].parent, n - 1);
        }
      }
    }
  }

  /** Keys are kept and only x's parent may differ. */
  ghost predicate SameParentsOff(t: Table, u: Table, x: int)
  {
    t.Keys == u.Keys && forall k :: k in t && k != x ==> t[k].parent == u[k].parent
  }

  lemma {:induction false} ChainInAvoiding(t: Table, u: Table, x: int, p: int, n: nat)
    requires RootedIn(t, p, n) && x !in ChainIn(t, p, n) && SameParentsOff(t, u, x)
    ensures RootedIn(u, p, n) && ChainIn(u, p, n) == ChainIn(t, p, n)
    decreases n
  {
    if p > 0 {
      ChainInAvoiding(t, u, x, t[p].parent, n - 1);
    }
  }

  /** A chain that does not pass through x is the same whatever x's parent becomes. */
  lemma ChainAvoiding(t: Table, u: Table, x: int, p: int)
    requires Rooted(t, p) && x !in Chain(t, p) && SameParentsOff(t, u, x)
    ensures Rooted(u, p) && Chain(u, p) == Chain(t, p)
  {
    var n: nat :| RootedIn(t, p, n) && Chain(t, p) == ChainIn(t, p, n);
    ChainInAvoiding(t, u, x, p, n);
    var m: nat :| RootedIn(u, p, m) && Chain(u, p) == ChainIn(u, p, m);
    if m <= n {
      FuelIrrelevant(u, p, m, n);
    } else {
      FuelIrrelevant(u, p, n, m);
    }
  }

  /** Changing links or counts, but no parent, keeps every chain. */
  lemma SameTree(t: Table, u: Table, p: int)
    requires Rooted(t, p) && SameParentsOff(t, u, 0)
    ensures Rooted(u, p) && Chain(u, p) == Chain(t, p)
  {
    ChainAvoiding(t, u, 0, p);
  }

  // ------------------------------------------------------------ row updates

  /** set_prev on the table: the row's prev becomes prev; an absent row is untouched. */
  function WithPrev(t: Table, id: int, prev: int): (u: Table)
    ensures SameParentsOff(t, u, 0)
    ensures id in t ==> u[id] == t[id].(prev := prev)
    ensures forall k :: k in t && k != id ==> u[k] == t[k]
  {
    if id in t then t[id := t[id].(prev := prev)] else t
  }

  /** set_next on the table. */
  function WithNext(t: Table, id: int, next: int): (u: Table)
    ensures SameParentsOff(t, u, 0)
    ensures id in t ==> u[id] == t[id].(next := next)
    ensures forall k :: k in t && k != id ==> u[k] == t[k]
  {
    if id in t then t[id := t[id].(next := next)] else t
  }

  /** The parent column write of set_parent. */
  function WithParent(t: Table, id: int, parent: int): (u: Table)
    ensures SameParentsOff(t, u, id)
    ensures id in t ==> u[id] == t[id].(parent := parent)
    ensures forall k :: k in t && k != id ==> u[k] == t[k]
  {
    if id in t then t[id := t[id].(parent := parent)] else t
  }

  /** The child_count update of one step of change_child_count. */
  function Bump(t: Table, p: int, diff: int): (u: Table)
    ensures SameParentsOff(t, u, 0)
  {
    if p in t then t[p := t[p].(childCount := t[p].childCount + diff)] else t
  }

  /** diff added to the child_count of every tab on chain, the rest of each row unchanged. */
  function AddAlong(t: Table, chain: seq<int>, diff: int): (u: Table)
    ensures SameParentsOff(t, u, 0)
  {
    map k | k in t :: t[k].(childCount := t[k].childCount + (if k in chain then diff else 0))
  }

  /** One more step of the walk: a tab not yet visited gains diff. */
  lemma AddAlongStep(t: Table, done: seq<int>, p: int, diff: int)
    requires p !in done
    ensures Bump(AddAlong(t, done, diff), p, diff) == AddAlong(t, done + [p], diff)
  {
  }

  /** Adding along an empty chain changes nothing. */
  lemma AddAlongNone(t: Table, diff: int)
    ensures AddAlong(t, [], diff) == t
  {
    forall k | k in t
      ensures AddAlong(t, [], diff)[k] == t[k]
    {
    }
  }

  // ------------------------------------------------------------ queries

  /** Ids are rowids, and prev and next are ids or 0 for none. */
  ghost predicate WellFormed(t: Table)
  {
    forall k :: k in t ==> k > 0 && t[k].prev >= 0 && t[k].next >= 0
  }

  /** The rows find_first matches: open children of parent with prev = 0. */
  function Heads(t: Table, parent: int): set<int>
  {
    set k | k in t && t[k].closedAt == 0 && t[k].parent == parent && t[k].prev == 0
  }

  /** The rows find_last matches: open children of parent with next = 0. */
  function Tails(t: Table, parent: int): set<int>
  {
    set k | k in t && t[k].closedAt == 0 && t[k].parent == parent && t[k].next == 0
  }

  /** A non-empty finite set of ids has a least element. */
  lemma {:induction false} LeastOf(s: set<int>) returns (m: int)
    requires s != {}
    ensures m in s && forall x :: x in s ==> m <= x
    decreases |s|
  {
    if forall x :: x !in s {
      assert false;
    }
    var y :| y in s;
    var rest := s - {y};
    if rest == {} {
      m := y;
      forall x | x in s ensures m <= x {
        assert x == y || x in rest;
      }
    } else {
      var r := LeastOf(rest);
      m := if y < r then y else r;
      forall x | x in s ensures m <= x {
        assert x == y || x in rest;
      }
    }
  }

  lemma LeastExists(s: set<int>)
    requires s != {}
    ensures exists m :: m in s && forall x :: x in s ==> m <= x
  {
    var m := LeastOf(s);
  }

  /**
   * The first row a query returns, 0 for none: SQLite scans the table in
   * rowid order, so this is the least matching id.
   */
  function FirstRow(s: set<int>): (r: int)
    ensures s == {} ==> r == 0
    ensures s != {} ==> r in s && forall x :: x in s ==> r <= x
  {
    if s == {} then 0 else LeastExists(s); var m :| m in s && forall x :: x in s ==> m <= x; m
  }

  // ------------------------------------------------------------ operations on values

  /**
   * set_parent: the parent column is written and id noted, then
   * change_child_count adds the subtree size, 1 + child_count, to the new
   * parent and each of its ancestors, noting each.
   */
  ghost function ParentSet(t: Table, id: int, parent: int): (e: Effect)
    requires id in t && Rooted(WithParent(t, id, parent), parent)
  {
    var u := WithParent(t, id, parent);
    var c := Chain(u, parent);
    Effect(AddAlong(u, c, 1 + t[id].childCount), [id] + c)
  }

  ghost predicate Removable(t: Table, id: int)
  {
    WellFormed(t) && id in t && Rooted(t, t[id].parent)
  }

  /** A tab whose parent is rooted is rooted itself. */
  lemma ParentRooted(t: Table, id: int)
    requires id > 0 && id in t && Rooted(t, t[id].parent)
    ensures Rooted(t, id)
  {
    var n: nat :| RootedIn(t, t[id].parent, n);
    assert RootedIn(t, id, n + 1);
  }

  /**
   * The relinking of remove_tab: prev's next becomes the tab's next and
   * next's prev the tab's prev; nothing else changes, the tab included.
   */
  function Spliced(t: Table, id: int): (r: Table)
    requires WellFormed(t) && id in t
    ensures SameParentsOff(t, r, 0) && r[id] == t[id]
    ensures forall k :: k in t && k != id ==> r[k] == t[k].(
      next := if k == t[id].prev then t[id].next else t[k].next,
      prev := if k == t[id].next then t[id].prev else t[k].prev)
  {
    var d := t[id];
    var t1 := if d.prev != 0 then WithNext(t, d.prev, d.next) else t;
    if d.next != 0 then WithPrev(t1, d.next, d.prev) else t1
  }

  /** The id a guarded call such as `if (prev) set_next(prev, id)` notes: none for 0. */
  function Maybe(x: int): seq<int>
  {
    if x != 0 then [x] else []
  }

  /** The neighbours remove_tab relinks, prev first. */
  function Neighbours(d: TabRow): seq<int>
  {
    Maybe(d.prev) + Maybe(d.next)
  }

  /**
   * remove_tab: the neighbours are linked to each other, the old parent's
   * chain loses the subtree size, and the tab is parked under parent -1,
   * which change_child_count ignores. Its own prev and next stay as they were.
   */
  ghost function Removed(t: Table, id: int): (e: Effect)
    requires Removable(t, id)
  {
    var d := t[id];
    var c := Chain(t, d.parent);
    // set_parent(id, -1): change_child_count ignores the parent -1
    Effect(WithParent(AddAlong(Spliced(t, id), c, -1 - d.childCount), id, -1), Neighbours(d) + c + [id])
  }

  /** The parent place_tab gives the tab: the reference's parent, or the reference itself. */
  function NewParent(t: Table, ref: int, rel: TabRelation): int
    requires (rel.Before? || rel.After?) ==> ref in t
  {
    if rel.Before? || rel.After? then t[ref].parent else ref
  }

  ghost predicate Placeable(t: Table, id: int, ref: int, rel: TabRelation)
  {
    WellFormed(t) && id in t
    && ((rel.Before? || rel.After?) ==> ref in t)
    && Rooted(WithParent(t, id, NewParent(t, ref, rel)), NewParent(t, ref, rel))
  }

  /** Relinking that leaves parents alone keeps the chain place_tab's set_parent walks. */
  lemma RelinkedParentChain(t: Table, t3: Table, id: int, p: int)
    requires id in t && SameParentsOff(t, t3, 0) && Rooted(WithParent(t, id, p), p)
    ensures Rooted(WithParent(t3, id, p), p) && Chain(WithParent(t3, id, p), p) == Chain(WithParent(t, id, p), p)
  {
    SameTree(WithParent(t, id, p), WithParent(t3, id, p), p);
  }

  /**
   * place_tab: BEFORE and AFTER put id between the reference and its old
   * prev or next under the reference's parent; FIRST_CHILD and LAST_CHILD
   * make id the new head or tail of the reference's open children.
   */
  ghost function Placed(t: Table, id: int, ref: int, rel: TabRelation): (e: Effect)
    requires Placeable(t, id, ref, rel)
  {
    match rel
    case Before =>
      var prev := t[ref].prev;
      var e1 := ParentSet(t, id, t[ref].parent);
      var t2 := if prev != 0 then WithNext(e1.tabs, prev, id) else e1.tabs;
      var t5 := WithPrev(WithNext(WithPrev(t2, id, prev), id, ref), ref, id);
      Effect(t5, e1.touched + Maybe(prev) + [id, id, ref])
    case After =>
      var next := t[ref].next;
      var e1 := ParentSet(t, id, t[ref].parent);
      var t4 := WithNext(WithPrev(WithNext(e1.tabs, ref, id), id, ref), id, next);
      var t5 := if next != 0 then WithPrev(t4, next, id) else t4;
      Effect(t5, e1.touched + [ref, id, id] + Maybe(next))
    case FirstChild =>
      var next := FirstRow(Heads(t, ref));
      var t2 := WithNext(WithPrev(t, id, 0), id, next);
      var t3 := if next != 0 then WithPrev(t2, next, id) else t2;
      RelinkedParentChain(t, t3, id, ref);
      var e := ParentSet(t3, id, ref);
      Effect(e.tabs, [id, id] + Maybe(next) + e.touched)
    case LastChild =>
      var prev := FirstRow(Tails(t, ref));
      var t1 := if prev != 0 then WithNext(t, prev, id) else t;
      var t3 := WithNext(WithPrev(t1, id, prev), id, 0);
      RelinkedParentChain(t, t3, id, ref);
      var e := ParentSet(t3, id, ref);
      Effect(e.tabs, Maybe(prev) + [id, id] + e.touched)
  }

  // ------------------------------------------------------------ properties

  lemma RemovedTable(t: Table, id: int)
    requires Removable(t, id)
    ensures Removed(t, id).tabs == WithParent(AddAlong(Spliced(t, id), Chain(t, t[id].parent), -1 - t[id].childCount), id, -1)
  {
  }

  /**
   * remove_tab splices the tab out of its sibling list: its prev now points
   * forward to its next and its next back to its prev, the old parent's
   * chain loses the subtree size, and the tab is parked under -1 with its
   * own links and count as they were.
   */
  lemma RemovedSpec(t: Table, id: int)
    requires Removable(t, id)
    ensures var d := t[id]; var r := Removed(t, id).tabs;
      r.Keys == t.Keys && r[id] == d.(parent := -1)
      && forall k :: k in t && k != id ==> r[k] == t[k].(
        next := if k == d.prev then d.next else t[k].next,
        prev := if k == d.next then d.prev else t[k].prev,
        childCount := t[k].childCount - (if k in Chain(t, d.parent) then 1 + d.childCount else 0))
  {
    var d := t[id];
    var t2 := Spliced(t, id);
    var c := Chain(t, d.parent);
    var t3 := AddAlong(t2, c, -1 - d.childCount);
    var r := WithParent(t3, id, -1);
    RemovedTable(t, id);
    ParentRooted(t, id);
    NotInParentChain(t, id);
    assert t3[id] == d;
    forall k | k in t && k != id
      ensures r[k] == t[k].(
        next := if k == d.prev then d.next else t[k].next,
        prev := if k == d.next then d.prev else t[k].prev,
        childCount := t[k].childCount - (if k in c then 1 + d.childCount else 0))
    {
      assert r[k] == t3[k];
      assert t3[k] == t2[k].(childCount := t2[k].childCount - (if k in c then 1 + d.childCount else 0));
    }
  }

  /** Every tab on a rooted chain is rooted itself. */
  lemma OnChainRooted(t: Table, p: int, x: int)
    requires Rooted(t, p) && x in Chain(t, p)
    ensures Rooted(t, x)
  {
    var n: nat :| RootedIn(t, p, n) && Chain(t, p) == ChainIn(t, p, n);
    var i :| 0 <= i < |ChainIn(t, p, n)| && ChainIn(t, p, n)[i] == x;
    ChainSuffix(t, p, n, i);
  }

  /** A tab whose parent is p is not on p's chain when that chain is rooted. */
  lemma NotBelowItself(u: Table, id: int, p: int)
    requires id > 0 && id in u && u[id].parent == p && Rooted(u, p)
    ensures id !in Chain(u, p)
  {
    if id in Chain(u, p) {
      OnChainRooted(u, p, id);
      NotInParentChain(u, id);
    }
  }

  /**
   * place_tab BEFORE: id goes between the reference and its old prev, under
   * the reference's parent, whose chain gains id's subtree size.
   */
  lemma PlacedBefore(t: Table, id: int, ref: int)
    requires Placeable(t, id, ref, Before) && id != ref && t[ref].prev != id
    ensures var p := t[ref].parent; var prev := t[ref].prev; var r := Placed(t, id, ref, Before).tabs;
      var c := Chain(WithParent(t, id, p), p);
      r.Keys == t.Keys && r[id] == t[id].(parent := p, prev := prev, next := ref)
      && forall k :: k in t && k != id ==> r[k] == t[k].(
        next := if k == prev then id else t[k].next,
        prev := if k == ref then id else t[k].prev,
        childCount := t[k].childCount + (if k in c then 1 + t[id].childCount else 0))
  {
    var p, prev := t[ref].parent, t[ref].prev;
    var u := WithParent(t, id, p);
    var c := Chain(u, p);
    NotBelowItself(u, id, p);
    var e1 := AddAlong(u, c, 1 + t[id].childCount);
    assert ParentSet(t, id, p).tabs == e1;
  }

  /**
   * place_tab AFTER: id goes between the reference and its old next, under
   * the reference's parent, whose chain gains id's subtree size.
   */
  lemma PlacedAfter(t: Table, id: int, ref: int)
    requires Placeable(t, id, ref, After) && id != ref && t[ref].next != id
    ensures var p := t[ref].parent; var next := t[ref].next; var r := Placed(t, id, ref, After).tabs;
      var c := Chain(WithParent(t, id, p), p);
      r.Keys == t.Keys && r[id] == t[id].(parent := p, prev := ref, next := next)
      && forall k :: k in t && k != id ==> r[k] == t[k].(
        next := if k == ref then id else t[k].next,
        prev := if k == next then id else t[k].prev,
        childCount := t[k].childCount + (if k in c then 1 + t[id].childCount else 0))
  {
    var p := t[ref].parent;
    var u := WithParent(t, id, p);
    var c := Chain(u, p);
    NotBelowItself(u, id, p);
    var e1 := AddAlong(u, c, 1 + t[id].childCount);
    assert ParentSet(t, id, p).tabs == e1;
  }

  /**
   * place_tab FIRST_CHILD: id becomes the head of the reference's open
   * children, in front of the head the query finds, and the reference's
   * chain gains id's subtree size.
   */
  lemma PlacedFirstChild(t: Table, id: int, ref: int)
    requires Placeable(t, id, ref, FirstChild) && FirstRow(Heads(t, ref)) != id
    ensures var h := FirstRow(Heads(t, ref)); var r := Placed(t, id, ref, FirstChild).tabs;
      var c := Chain(WithParent(t, id, ref), ref);
      (h == 0 <==> Heads(t, ref) == {})
      && r.Keys == t.Keys && r[id] == t[id].(parent := ref, prev := 0, next := h)
      && forall k :: k in t && k != id ==> r[k] == t[k].(
        prev := if k == h then id else t[k].prev,
        childCount := t[k].childCount + (if k in c then 1 + t[id].childCount else 0))
  {
    var h := FirstRow(Heads(t, ref));
    var t2 := WithNext(WithPrev(t, id, 0), id, h);
    var t3 := if h != 0 then WithPrev(t2, h, id) else t2;
    RelinkedParentChain(t, t3, id, ref);
    var u := WithParent(t3, id, ref);
    var c := Chain(u, ref);
    NotBelowItself(u, id, ref);
    assert ParentSet(t3, id, ref).tabs == AddAlong(u, c, 1 + t[id].childCount);
  }

  /**
   * place_tab LAST_CHILD: id becomes the tail of the reference's open
   * children, behind the tail the query finds, and the reference's chain
   * gains id's subtree size.
   */
  lemma PlacedLastChild(t: Table, id: int, ref: int)
    requires Placeable(t, id, ref, LastChild) && FirstRow(Tails(t, ref)) != id
    ensures var h := FirstRow(Tails(t, ref)); var r := Placed(t, id, ref, LastChild).tabs;
      var c := Chain(WithParent(t, id, ref), ref);
      (h == 0 <==> Tails(t, ref) == {})
      && r.Keys == t.Keys && r[id] == t[id].(parent := ref, prev := h, next := 0)
      && forall k :: k in t && k != id ==> r[k] == t[k].(
        next := if k == h then id else t[k].next,
        childCount := t[k].childCount + (if k in c then 1 + t[id].childCount else 0))
  {
    var h := FirstRow(Tails(t, ref));
    var t1 := if h != 0 then WithNext(t, h, id) else t;
    var t3 := WithNext(WithPrev(t1, id, h), id, 0);
    RelinkedParentChain(t, t3, id, ref);
    var u := WithParent(t3, id, ref);
    var c := Chain(u, ref);
    NotBelowItself(u, id, ref);
    assert ParentSet(t3, id, ref).tabs == AddAlong(u, c, 1 + t[id].childCount);
  }

  /** A row without its sibling links: what the tree and the counts see. */
  function Shape(row: TabRow): TabRow
  {
    row.(prev := 0, next := 0)
  }

  /** The rows of r are those of t with their links changed, and nothing else. */
  ghost predicate RelinkedOnly(t: Table, r: Table)
  {
    t.Keys == r.Keys && forall k :: k in t ==> Shape(r[k]) == Shape(t[k])
  }

  lemma RelinkedTrans(a: Table, b: Table, c: Table)
    requires RelinkedOnly(a, b) && RelinkedOnly(b, c)
    ensures RelinkedOnly(a, c)
  {
  }

  lemma SetPrevRelinks(t: Table, id: int, prev: int)
    ensures RelinkedOnly(t, WithPrev(t, id, prev))
  {
  }

  lemma SetNextRelinks(t: Table, id: int, next: int)
    ensures RelinkedOnly(t, WithNext(t, id, next))
  {
  }

  /** Relinking before set_parent changes nothing set_parent does to the shapes. */
  lemma RelinkedThenParentSet(t: Table, t3: Table, id: int, p: int, c: seq<int>)
    requires id in t && RelinkedOnly(t, t3)
    ensures RelinkedOnly(AddAlong(WithParent(t, id, p), c, 1 + t[id].childCount),
      AddAlong(WithParent(t3, id, p), c, 1 + t3[id].childCount))
  {
    assert Shape(t3[id]) == Shape(t[id]);
  }

  /** The shapes after set_parent(id, p) followed by any relinking. */
  lemma ParentSetShape(t: Table, id: int, p: int, r: Table)
    requires id > 0 && id in t && Rooted(WithParent(t, id, p), p)
    requires RelinkedOnly(AddAlong(WithParent(t, id, p), Chain(WithParent(t, id, p), p), 1 + t[id].childCount), r)
    ensures var c := Chain(WithParent(t, id, p), p);
      r.Keys == t.Keys && id !in c
      && forall k :: k in t ==> Shape(r[k]) == Shape(t[k]).(
        parent := if k == id then p else t[k].parent,
        childCount := t[k].childCount + (if k in c then 1 + t[id].childCount else 0))
  {
    NotBelowItself(WithParent(t, id, p), id, p);
  }

  /** place_tab BEFORE / AFTER relink after their set_parent. */
  lemma PlacedBesideRelinks(t: Table, id: int, ref: int, rel: TabRelation)
    requires Placeable(t, id, ref, rel) && (rel.Before? || rel.After?)
    ensures var p := NewParent(t, ref, rel); var u := WithParent(t, id, p);
      RelinkedOnly(AddAlong(u, Chain(u, p), 1 + t[id].childCount), Placed(t, id, ref, rel).tabs)
  {
    var p := t[ref].parent;
    var e1 := ParentSet(t, id, p).tabs;
    if rel.Before? {
      var prev := t[ref].prev;
      var t2 := if prev != 0 then WithNext(e1, prev, id) else e1;
      SetNextRelinks(e1, prev, id);
      var t3 := WithPrev(t2, id, prev);
      SetPrevRelinks(t2, id, prev);
      var t4 := WithNext(t3, id, ref);
      SetNextRelinks(t3, id, ref);
      SetPrevRelinks(t4, ref, id);
      RelinkedTrans(e1, t2, t3);
      RelinkedTrans(e1, t3, t4);
      RelinkedTrans(e1, t4, WithPrev(t4, ref, id));
    } else {
      var next := t[ref].next;
      var t2 := WithNext(e1, ref, id);
      SetNextRelinks(e1, ref, id);
      var t3 := WithPrev(t2, id, ref);
      SetPrevRelinks(t2, id, ref);
      var t4 := WithNext(t3, id, next);
      SetNextRelinks(t3, id, next);
      SetPrevRelinks(t4, next, id);
      RelinkedTrans(e1, t2, t3);
      RelinkedTrans(e1, t3, t4);
      RelinkedTrans(e1, t4, if next != 0 then WithPrev(t4, next, id) else t4);
    }
  }

  /** place_tab FIRST_CHILD / LAST_CHILD relink before their set_parent. */
  lemma PlacedUnderRelinks(t: Table, id: int, ref: int, rel: TabRelation)
    requires Placeable(t, id, ref, rel) && (rel.FirstChild? || rel.LastChild?)
    ensures var u := WithParent(t, id, ref);
      RelinkedOnly(AddAlong(u, Chain(u, ref), 1 + t[id].childCount), Placed(t, id, ref, rel).tabs)
  {
    var t3;
    if rel.FirstChild? {
      var next := FirstRow(Heads(t, ref));
      var t1 := WithPrev(t, id, 0);
      SetPrevRelinks(t, id, 0);
      var t2 := WithNext(t1, id, next);
      SetNextRelinks(t1, id, next);
      t3 := if next != 0 then WithPrev(t2, next, id) else t2;
      SetPrevRelinks(t2, next, id);
      RelinkedTrans(t, t1, t2);
      RelinkedTrans(t, t2, t3);
    } else {
      var prev := FirstRow(Tails(t, ref));
      var t1 := if prev != 0 then WithNext(t, prev, id) else t;
      SetNextRelinks(t, prev, id);
      var t2 := WithPrev(t1, id, prev);
      SetPrevRelinks(t1, id, prev);
      t3 := WithNext(t2, id, 0);
      SetNextRelinks(t2, id, 0);
      RelinkedTrans(t, t1, t2);
      RelinkedTrans(t, t2, t3);
    }
    RelinkedParentChain(t, t3, id, ref);
    var c := Chain(WithParent(t, id, ref), ref);
    RelinkedThenParentSet(t, t3, id, ref, c);
  }

  /**
   * Whatever the links, place_tab gives the tab its new parent and adds its
   * subtree size to the new parent's chain; no other parent, count or
   * closing time changes.
   */
  lemma PlacedTree(t: Table, id: int, ref: int, rel: TabRelation)
    requires Placeable(t, id, ref, rel)
    ensures var p := NewParent(t, ref, rel); var r := Placed(t, id, ref, rel).tabs;
      var c := Chain(WithParent(t, id, p), p);
      r.Keys == t.Keys && id !in c
      && forall k :: k in t ==> Shape(r[k]) == Shape(t[k]).(
        parent := if k == id then p else t[k].parent,
        childCount := t[k].childCount + (if k in c then 1 + t[id].childCount else 0))
  {
    if rel.Before? || rel.After? {
      PlacedBesideRelinks(t, id, ref, rel);
    } else {
      PlacedUnderRelinks(t, id, ref, rel);
    }
    ParentSetShape(t, id, NewParent(t, ref, rel), Placed(t, id, ref, rel).tabs);
  }

  // ------------------------------------------------------------ close_tab and move_tab

  /** After remove_tab, giving the tab its old parent back restores the chain set_parent walks. */
  lemma ParentRestored(t: Table, id: int)
    requires Removable(t, id)
    ensures var w := WithParent(Removed(t, id).tabs, id, t[id].parent);
      Rooted(w, t[id].parent) && Chain(w, t[id].parent) == Chain(t, t[id].parent)
  {
    RemovedTable(t, id);
    var w := WithParent(Removed(t, id).tabs, id, t[id].parent);
    assert SameParentsOff(t, w, 0);
    SameTree(t, w, t[id].parent);
  }

  /**
   * close_tab: an open tab gets closed_at = now, is removed, and is put
   * back under its old parent; a tab already closed is left alone.
   */
  ghost function Closed(t: Table, id: int, now: int): (e: Effect)
    requires Removable(t, id)
  {
    var d := t[id];
    if d.closedAt != 0 then Effect(t, [])
    else
      var t1 := t[id := d.(closedAt := now)];
      assert SameParentsOff(t, t1, 0);
      SameTree(t, t1, d.parent);
      var e1 := Removed(t1, id);
      ParentRestored(t1, id);
      var e2 := ParentSet(e1.tabs, id, d.parent);
      Effect(e2.tabs, e1.touched + e2.touched)
  }

  /**
   * Closing a tab keeps it, and every tab below it, where it was in the
   * tree and leaves every child_count as it was; it only records the time
   * and takes the tab out of its sibling list, whose neighbours now point
   * at each other.
   */
  lemma ClosedSpec(t: Table, id: int, now: int)
    requires Removable(t, id)
    ensures var d := t[id]; var r := Closed(t, id, now).tabs;
      (d.closedAt != 0 ==> r == t)
      && (d.closedAt == 0 ==>
        r.Keys == t.Keys && r[id] == d.(closedAt := now)
        && forall k :: k in t && k != id ==> r[k] == t[k].(
          next := if k == d.prev then d.next else t[k].next,
          prev := if k == d.next then d.prev else t[k].prev))
  {
    var d := t[id];
    if d.closedAt == 0 {
      var t1 := t[id := d.(closedAt := now)];
      SameTree(t, t1, d.parent);
      var c := Chain(t, d.parent);
      RemovedSpec(t1, id);
      ParentRestored(t1, id);
      var e1 := Removed(t1, id).tabs;
      var w := WithParent(e1, id, d.parent);
      ClosedTable(t, id, now);
    }
  }

  lemma ClosedTable(t: Table, id: int, now: int)
    requires Removable(t, id) && t[id].closedAt == 0
    ensures Rooted(t[id := t[id].(closedAt := now)], t[id].parent)
    ensures var t1 := t[id := t[id].(closedAt := now)]; var e1 := Removed(t1, id).tabs;
      Closed(t, id, now).tabs == AddAlong(WithParent(e1, id, t[id].parent), Chain(t1, t[id].parent), 1 + e1[id].childCount)
  {
    var t1 := t[id := t[id].(closedAt := now)];
    assert SameParentsOff(t, t1, 0);
    SameTree(t, t1, t[id].parent);
    ParentRestored(t1, id);
  }

  ghost predicate Movable(t: Table, id: int, ref: int, rel: TabRelation)
  {
    Removable(t, id) && ((rel.Before? || rel.After?) ==> ref in t)
    && Rooted(t, NewParent(t, ref, rel))
  }

  /** The walk from p, in a table whose parents differ from t's only at x. */
  lemma {:induction false} WalkThrough(t: Table, u: Table, x: int, p: int, q: int, m: nat, n: nat)
      returns (k: nat)
    requires RootedIn(t, q, m) && x in ChainIn(t, q, m) && SameParentsOff(t, u, x)
    requires x in u && u[x].parent == p && RootedIn(u, q, n)
    ensures k < n && RootedIn(u, p, k)
    decreases m
  {
    if q == x {
      k := n - 1;
    } else {
      k := WalkThrough(t, u, x, p, t[q].parent, m - 1, n - 1);
    }
  }

  /**
   * Making x the child of a tab p that lies below x closes a loop: the
   * walk up from p never reaches the root.
   */
  lemma {:induction false} LoopNotRooted(t: Table, u: Table, x: int, p: int, m: nat, n: nat)
    requires RootedIn(t, p, m) && x in ChainIn(t, p, m) && SameParentsOff(t, u, x)
    requires x in u && u[x].parent == p
    ensures !RootedIn(u, p, n)
    decreases n
  {
    if RootedIn(u, p, n) {
      var k := WalkThrough(t, u, x, p, p, m, n);
      LoopNotRooted(t, u, x, p, m, k);
    }
  }

  /**
   * move_tab as written: when the new parent lies in the moved tab's own
   * subtree, the set_parent of place_tab starts a change_child_count walk
   * that never reaches a parent <= 0, so the while loop does not end.
   */
  lemma MoveIntoOwnSubtreeNeverEnds(t: Table, id: int, ref: int, rel: TabRelation)
    requires Movable(t, id, ref, rel) && ref != id && id in Chain(t, NewParent(t, ref, rel))
    ensures !Placeable(Removed(t, id).tabs, id, ref, rel)
  {
    var e1 := Removed(t, id).tabs;
    RemovedTable(t, id);
    var p := NewParent(t, ref, rel);
    assert NewParent(e1, ref, rel) == p;
    var u := WithParent(e1, id, p);
    assert SameParentsOff(t, u, id);
    var m: nat :| RootedIn(t, p, m) && Chain(t, p) == ChainIn(t, p, m);
    forall n: nat ensures !RootedIn(u, p, n) {
      LoopNotRooted(t, u, id, p, m, n);
    }
  }

  /** Tabs 1 and 2, where 2 is the child of 1. */
  function TwoTabs(): Table
  {
    map[1 := TabRow(0, 0, 0, 1, 0), 2 := TabRow(1, 0, 0, 0, 0)]
  }

  /** Moving tab 1 to be the last child of its own child 2 never ends. */
  lemma MoveUnderOwnChild()
    ensures Movable(TwoTabs(), 1, 2, LastChild)
    ensures !Placeable(Removed(TwoTabs(), 1).tabs, 1, 2, LastChild)
  {
    var t := TwoTabs();
    assert RootedIn(t, 0, 0);
    assert RootedIn(t, 2, 2);
    assert ChainIn(t, 2, 2) == [2, 1];
    FuelIrrelevant(t, 2, 2, 2);
    var n: nat :| RootedIn(t, 2, n) && Chain(t, 2) == ChainIn(t, 2, n);
    if n < 2 {
      FuelIrrelevant(t, 2, n, 2);
    } else {
      FuelIrrelevant(t, 2, 2, n);
    }
    MoveIntoOwnSubtreeNeverEnds(t, 1, 2, LastChild);
  }

  /**
   * move_tab with the missing guard: a move onto the tab itself, or into
   * its own subtree, changes nothing; otherwise the tab is removed and
   * placed again.
   */
  ghost function Moved(t: Table, id: int, ref: int, rel: TabRelation): (e: Effect)
    requires Movable(t, id, ref, rel)
  {
    var p := NewParent(t, ref, rel);
    if ref == id || id in Chain(t, p) then Effect(t, [])
    else
      var e1 := Removed(t, id);
      MovablePlaceable(t, id, ref, rel);
      var e2 := Placed(e1.tabs, id, ref, rel);
      Effect(e2.tabs, e1.touched + e2.touched)
  }

  /** Once the loop is excluded, the tab can be placed after its removal. */
  lemma MovablePlaceable(t: Table, id: int, ref: int, rel: TabRelation)
    requires Movable(t, id, ref, rel) && ref != id && id !in Chain(t, NewParent(t, ref, rel))
    ensures var e1 := Removed(t, id).tabs; var p := NewParent(t, ref, rel);
      Placeable(e1, id, ref, rel) && NewParent(e1, ref, rel) == p
      && Chain(WithParent(e1, id, p), p) == Chain(t, p)
  {
    var e1 := Removed(t, id).tabs;
    RemovedTable(t, id);
    var p := NewParent(t, ref, rel);
    var u := WithParent(e1, id, p);
    assert SameParentsOff(t, u, id);
    ChainAvoiding(t, u, id, p);
  }

  /**
   * The corrected move_tab carries the tab's subtree from its old parent to
   * its new one: the old parent's chain loses the subtree size and the new
   * parent's chain gains it, nothing else in the tree changes, and a move
   * onto the tab itself or into its own subtree changes nothing at all.
   */
  lemma MovedTree(t: Table, id: int, ref: int, rel: TabRelation)
    requires Movable(t, id, ref, rel)
    ensures var p := NewParent(t, ref, rel); var r := Moved(t, id, ref, rel).tabs;
      var s := 1 + t[id].childCount;
      (ref == id || id in Chain(t, p) ==> r == t)
      && (ref != id && id !in Chain(t, p) ==>
        r.Keys == t.Keys
        && forall k :: k in t ==> Shape(r[k]) == Shape(t[k]).(
          parent := if k == id then p else t[k].parent,
          childCount := t[k].childCount - (if k in Chain(t, t[id].parent) then s else 0)
            + (if k in Chain(t, p) then s else 0)))
  {
    var p := NewParent(t, ref, rel);
    if ref != id && id !in Chain(t, p) {
      MovedTable(t, id, ref, rel);
      RemovedThenPlaced(t, id, ref, rel);
    }
  }

  lemma RemovedThenPlaced(t: Table, id: int, ref: int, rel: TabRelation)
    requires Movable(t, id, ref, rel) && ref != id && id !in Chain(t, NewParent(t, ref, rel))
    requires Placeable(Removed(t, id).tabs, id, ref, rel)
    ensures var p := NewParent(t, ref, rel); var r := Placed(Removed(t, id).tabs, id, ref, rel).tabs;
      var s := 1 + t[id].childCount;
      r.Keys == t.Keys
      && forall k :: k in t ==> Shape(r[k]) == Shape(t[k]).(
        parent := if k == id then p else t[k].parent,
        childCount := t[k].childCount - (if k in Chain(t, t[id].parent) then s else 0)
          + (if k in Chain(t, p) then s else 0))
  {
    var p := NewParent(t, ref, rel);
    var e1 := Removed(t, id).tabs;
    RemovedSpec(t, id);
    ParentRooted(t, id);
    NotInParentChain(t, id);
    MovablePlaceable(t, id, ref, rel);
    PlacedTree(e1, id, ref, rel);
    RemoveThenPlaceShapes(t, e1, Placed(e1, id, ref, rel).tabs, id, p, Chain(t, t[id].parent), Chain(t, p), 1 + t[id].childCount);
  }

  lemma MovedTable(t: Table, id: int, ref: int, rel: TabRelation)
    requires Movable(t, id, ref, rel) && ref != id && id !in Chain(t, NewParent(t, ref, rel))
    ensures Placeable(Removed(t, id).tabs, id, ref, rel)
    ensures Moved(t, id, ref, rel).tabs == Placed(Removed(t, id).tabs, id, ref, rel).tabs
  {
    MovablePlaceable(t, id, ref, rel);
  }

  /** Composing the shapes left by remove_tab with those left by place_tab. */
  lemma RemoveThenPlaceShapes(t: Table, e1: Table, r: Table, id: int, p: int, gone: seq<int>, gained: seq<int>, s: int)
    requires id in t && e1.Keys == t.Keys && r.Keys == t.Keys && id !in gone && id !in gained
    requires e1[id] == t[id].(parent := -1) && s == 1 + t[id].childCount
    requires forall k :: k in t && k != id ==>
      Shape(e1[k]) == Shape(t[k]).(childCount := t[k].childCount - (if k in gone then s else 0))
    requires forall k :: k in e1 ==> Shape(r[k]) == Shape(e1[k]).(
      parent := if k == id then p else e1[k].parent,
      childCount := e1[k].childCount + (if k in gained then 1 + e1[id].childCount else 0))
    ensures forall k :: k in t ==> Shape(r[k]) == Shape(t[k]).(
      parent := if k == id then p else t[k].parent,
      childCount := t[k].childCount - (if k in gone then s else 0) + (if k in gained then s else 0))
  {
    forall k | k in t
      ensures Shape(r[k]) == Shape(t[k]).(
        parent := if k == id then p else t[k].parent,
        childCount := t[k].childCount - (if k in gone then s else 0) + (if k in gained then s else 0))
    {
      if k != id {
        assert e1[k].parent == t[k].parent && e1[k].childCount == t[k].childCount - (if k in gone then s else 0);
      }
    }
  }

  // ------------------------------------------------------------ the tables in memory

  /** In a list without duplicates, the head of the second part is not in the first. */
  lemma DistinctHead(a: seq<int>, b: seq<int>)
    requires Distinct(a + b) && b != []
    ensures b[0] !in a
  {
    forall i | 0 <= i < |a|
      ensures a[i] != b[0]
    {
      assert (a + b)[i] == a[i] && (a + b)[|a|] == b[0];
    }
  }

  /** One step of the walk up a chain without repeats. */
  lemma WalkStep(t: Table, whole: seq<int>, done: seq<int>, p: int)
    requires Rooted(t, p) && p > 0 && whole == done + Chain(t, p) && Distinct(whole)
    ensures p in t && p !in done && Rooted(t, t[p].parent)
    ensures whole == (done + [p]) + Chain(t, t[p].parent)
    ensures |Chain(t, t[p].parent)| < |Chain(t, p)|
  {
    ChainUnfold(t, p);
    DistinctHead(done, Chain(t, p));
  }

  /**
   * The last step of remove_tab: set_parent(id, -1) writes the parent and
   * notes the tab, and its walk from -1 visits nothing.
   */
  lemma RemovedParking(t: Table, id: int, t1: Table, diff: int, t3: Table)
    requires Removable(t, id) && t1 == Spliced(t, id) && Rooted(t1, t[id].parent)
    requires diff == -1 - t[id].childCount && t3 == AddAlong(t1, Chain(t1, t[id].parent), diff)
    ensures id in t3 && Rooted(WithParent(t3, id, -1), -1)
    ensures ParentSet(t3, id, -1) == Effect(Removed(t, id).tabs, [id])
    ensures Removed(t, id).touched == Neighbours(t[id]) + Chain(t, t[id].parent) + [id]
  {
    SameTree(t, t1, t[id].parent);
    ChainOfRoot(WithParent(t3, id, -1), -1);
    AddAlongNone(WithParent(t3, id, -1), 1 + t3[id].childCount);
  }

  /** A guarded call notes its id, or nothing for 0. */
  lemma NotedMaybe(s: seq<int>, a: seq<int>, x: int)
    ensures (if x != 0 then Noted(NotedAll(s, a), x) else NotedAll(s, a)) == NotedAll(s, a + Maybe(x))
  {
    if x != 0 {
      NotedSnoc(s, a, x);
    } else {
      assert a + Maybe(x) == a;
    }
  }

  /** Three calls in a row note their ids in turn. */
  lemma NotedThree(s: seq<int>, a: seq<int>, x: int, y: int, z: int)
    ensures Noted(Noted(Noted(NotedAll(s, a), x), y), z) == NotedAll(s, a + [x, y, z])
  {
    NotedSnoc(s, a, x);
    NotedSnoc(s, a + [x], y);
    NotedSnoc(s, a + [x] + [y], z);
    assert a + [x] + [y] + [z] == a + [x, y, z];
  }

  /** The notes of FIRST_CHILD's relinking: id twice, then the old head. */
  lemma NotedHeadFirst(s: seq<int>, id: int, next: int)
    ensures (if next != 0 then Noted(Noted(Noted(s, id), id), next) else Noted(Noted(s, id), id))
      == NotedAll(s, [id, id] + Maybe(next))
  {
    if next != 0 {
      NotedThree(s, [], id, id, next);
      assert [] + [id, id, next] == [id, id] + Maybe(next);
    } else {
      NotedTwo(s, id, id);
      assert [id, id] + Maybe(next) == [id, id];
    }
  }

  /** The notes of LAST_CHILD's relinking: the old tail, then id twice. */
  lemma NotedTailFirst(s: seq<int>, id: int, prev: int)
    ensures Noted(Noted(if prev != 0 then Noted(s, prev) else s, id), id) == NotedAll(s, Maybe(prev) + [id, id])
  {
    if prev != 0 {
      NotedThree(s, [], prev, id, id);
      assert [] + [prev, id, id] == Maybe(prev) + [id, id];
    } else {
      NotedTwo(s, id, id);
      assert Maybe(prev) + [id, id] == [id, id];
    }
  }

  lemma NotedTwo(s: seq<int>, x: int, y: int)
    ensures Noted(Noted(s, x), y) == NotedAll(s, [x, y])
  {
    NotedSnoc(s, [], x);
    NotedSnoc(s, [x], y);
    assert [] + [x] == [x] && [x] + [y] == [x, y];
  }

  /** Noting one more id extends the noted sequence by it. */
  lemma NotedSnoc(s: seq<int>, a: seq<int>, x: int)
    ensures Noted(NotedAll(s, a), x) == NotedAll(s, a + [x])
  {
    assert (a + [x])[..|a + [x]| - 1] == a;
  }

  /**
   * The tab table with the two pending lists that the next commit hands to
   * the observers: tabs changed, and windows changed.
   */
  class TabStore {
    var tabs: Table
    var updatedTabs: seq<int>
    var updatedWindows: seq<int>

    constructor (t: Table)
      ensures tabs == t && updatedTabs == [] && updatedWindows == []
    {
      tabs := t;
      updatedTabs := [];
      updatedWindows := [];
    }

    /** tab_updated: id joins the pending list unless it is already there. */
    method TabUpdated(id: int)
      requires id > 0
      modifies this`updatedTabs
      ensures updatedTabs == Noted(old(updatedTabs), id)
    {
      var i := 0;
      while i < |updatedTabs|
        invariant 0 <= i <= |updatedTabs|
        invariant id !in updatedTabs[..i]
      {
        if updatedTabs[i] == id {
          return;
        }
        i := i + 1;
      }
      assert updatedTabs[..i] == updatedTabs;
      updatedTabs := updatedTabs + [id];
    }

    /** window_updated: the same for the pending windows. */
    method WindowUpdated(id: int)
      requires id > 0
      modifies this`updatedWindows
      ensures updatedWindows == Noted(old(updatedWindows), id)
    {
      var i := 0;
      while i < |updatedWindows|
        invariant 0 <= i <= |updatedWindows|
        invariant id !in updatedWindows[..i]
      {
        if updatedWindows[i] == id {
          return;
        }
        i := i + 1;
      }
      assert updatedWindows[..i] == updatedWindows;
      updatedWindows := updatedWindows + [id];
    }

    /**
     * change_child_count: walks up from parent until an id <= 0, adding
     * diff to each child_count and noting each tab.
     */
    method ChangeChildCount(parent: int, diff: int)
      requires Rooted(tabs, parent)
      modifies this`tabs, this`updatedTabs
      ensures tabs == AddAlong(old(tabs), Chain(old(tabs), parent), diff)
      ensures updatedTabs == NotedAll(old(updatedTabs), Chain(old(tabs), parent))
    {
      ghost var t0, u0 := tabs, updatedTabs;
      ghost var done: seq<int> := [];
      ChainDistinct(t0, parent);
      AddAlongNone(t0, diff);
      var p := parent;
      while p > 0
        invariant Rooted(t0, p) && Chain(t0, parent) == done + Chain(t0, p)
        invariant tabs == AddAlong(t0, done, diff) && updatedTabs == NotedAll(u0, done)
        decreases |Chain(t0, p)|
      {
        WalkStep(t0, Chain(t0, parent), done, p);
        AddAlongStep(t0, done, p, diff);
        tabs := Bump(tabs, p, diff);
        TabUpdated(p);
        NotedSnoc(u0, done, p);
        done := done + [p];
        p := tabs[p].parent;
      }
      ChainOfRoot(t0, p);
      assert done == Chain(t0, parent);
    }

    /** set_prev: the row's prev is written and the tab noted. */
    method SetPrev(id: int, prev: int)
      requires id > 0
      modifies this`tabs, this`updatedTabs
      ensures tabs == WithPrev(old(tabs), id, prev)
      ensures updatedTabs == Noted(old(updatedTabs), id)
    {
      tabs := WithPrev(tabs, id, prev);
      TabUpdated(id);
    }

    /** set_next: the row's next is written and the tab noted. */
    method SetNext(id: int, next: int)
      requires id > 0
      modifies this`tabs, this`updatedTabs
      ensures tabs == WithNext(old(tabs), id, next)
      ensures updatedTabs == Noted(old(updatedTabs), id)
    {
      tabs := WithNext(tabs, id, next);
      TabUpdated(id);
    }

    /**
     * set_parent: the parent is written, the tab noted, and the subtree
     * size added along the new parent's chain.
     */
    method SetParent(id: int, parent: int)
      requires id > 0 && id in tabs && Rooted(WithParent(tabs, id, parent), parent)
      modifies this`tabs, this`updatedTabs
      ensures tabs == ParentSet(old(tabs), id, parent).tabs
      ensures updatedTabs == NotedAll(old(updatedTabs), ParentSet(old(tabs), id, parent).touched)
    {
      ghost var u0 := updatedTabs;
      tabs := WithParent(tabs, id, parent);
      TabUpdated(id);
      assert updatedTabs == NotedAll(u0, [id]);
      var diff := 1 + tabs[id].childCount;
      ChangeChildCount(parent, diff);
      NotedAllAppend(u0, [id], Chain(WithParent(old(tabs), id, parent), parent));
    }

    /** The first half of remove_tab: the neighbours are linked to each other. */
    method Unlink(id: int)
      requires WellFormed(tabs) && id in tabs
      modifies this`tabs, this`updatedTabs
      ensures tabs == Spliced(old(tabs), id)
      ensures updatedTabs == NotedAll(old(updatedTabs), Neighbours(old(tabs)[id]))
    {
      ghost var u0 := updatedTabs;
      var prev, next := tabs[id].prev, tabs[id].next;
      if prev != 0 {
        SetNext(prev, next);
      }
      ghost var a := if prev != 0 then [prev] else [];
      assert updatedTabs == NotedAll(u0, a);
      if next != 0 {
        SetPrev(next, prev);
        NotedSnoc(u0, a, next);
      }
    }

    /**
     * remove_tab: the neighbours are linked to each other, the old parent's
     * chain loses the subtree size, and the tab is parked under -1.
     */
    method RemoveTab(id: int)
      requires Removable(tabs, id)
      modifies this`tabs, this`updatedTabs
      ensures tabs == Removed(old(tabs), id).tabs
      ensures updatedTabs == NotedAll(old(updatedTabs), Removed(old(tabs), id).touched)
    {
      ghost var t0, u0 := tabs, updatedTabs;
      var parent, diff := tabs[id].parent, -1 - tabs[id].childCount;
      Unlink(id);
      ghost var t1 := tabs;
      SameTree(t0, t1, parent);
      ChangeChildCount(parent, diff);
      NotedAllAppend(u0, Neighbours(t0[id]), Chain(t1, parent));
      RemovedParking(t0, id, t1, diff, tabs);
      SetParent(id, -1);
      NotedAllAppend(u0, Neighbours(t0[id]) + Chain(t0, parent), [id]);
    }

    /** place_tab: the switch over the four relations. */
    method PlaceTab(id: int, ref: int, rel: TabRelation)
      requires Placeable(tabs, id, ref, rel)
      modifies this`tabs, this`updatedTabs
      ensures tabs == Placed(old(tabs), id, ref, rel).tabs
      ensures updatedTabs == NotedAll(old(updatedTabs), Placed(old(tabs), id, ref, rel).touched)
    {
      match rel {
        case Before => PlaceBefore(id, ref);
        case After => PlaceAfter(id, ref);
        case FirstChild => PlaceFirstChild(id, ref);
        case LastChild => PlaceLastChild(id, ref);
      }
    }

    method PlaceBefore(id: int, ref: int)
      requires Placeable(tabs, id, ref, Before)
      modifies this`tabs, this`updatedTabs
      ensures tabs == Placed(old(tabs), id, ref, Before).tabs
      ensures updatedTabs == NotedAll(old(updatedTabs), Placed(old(tabs), id, ref, Before).touched)
    {
      ghost var t0, u0 := tabs, updatedTabs;
      var prev, parent := tabs[ref].prev, tabs[ref].parent;
      SetParent(id, parent);
      ghost var a := ParentSet(t0, id, parent).touched;
      NotedMaybe(u0, a, prev);
      if prev != 0 {
        SetNext(prev, id);
      }
      SetPrev(id, prev);
      SetNext(id, ref);
      SetPrev(ref, id);
      NotedThree(u0, a + Maybe(prev), id, id, ref);
    }

    method PlaceAfter(id: int, ref: int)
      requires Placeable(tabs, id, ref, After)
      modifies this`tabs, this`updatedTabs
      ensures tabs == Placed(old(tabs), id, ref, After).tabs
      ensures updatedTabs == NotedAll(old(updatedTabs), Placed(old(tabs), id, ref, After).touched)
    {
      ghost var t0, u0 := tabs, updatedTabs;
      var next, parent := tabs[ref].next, tabs[ref].parent;
      SetParent(id, parent);
      ghost var a := ParentSet(t0, id, parent).touched;
      SetNext(ref, id);
      SetPrev(id, ref);
      SetNext(id, next);
      NotedThree(u0, a, ref, id, id);
      NotedMaybe(u0, a + [ref, id, id], next);
      if next != 0 {
        SetPrev(next, id);
      }
    }

    method PlaceFirstChild(id: int, ref: int)
      requires Placeable(tabs, id, ref, FirstChild)
      modifies this`tabs, this`updatedTabs
      ensures tabs == Placed(old(tabs), id, ref, FirstChild).tabs
      ensures updatedTabs == NotedAll(old(updatedTabs), Placed(old(tabs), id, ref, FirstChild).touched)
    {
      ghost var t0, u0 := tabs, updatedTabs;
      var next := FirstRow(Heads(tabs, ref));
      SetPrev(id, 0);
      SetNext(id, next);
      if next != 0 {
        SetPrev(next, id);
      }
      NotedHeadFirst(u0, id, next);
      RelinkedParentChain(t0, tabs, id, ref);
      ghost var t3 := tabs;
      SetParent(id, ref);
      NotedAllAppend(u0, [id, id] + Maybe(next), ParentSet(t3, id, ref).touched);
    }

    method PlaceLastChild(id: int, ref: int)
      requires Placeable(tabs, id, ref, LastChild)
      modifies this`tabs, this`updatedTabs
      ensures tabs == Placed(old(tabs), id, ref, LastChild).tabs
      ensures updatedTabs == NotedAll(old(updatedTabs), Placed(old(tabs), id, ref, LastChild).touched)
    {
      ghost var t0, u0 := tabs, updatedTabs;
      var prev := FirstRow(Tails(tabs, ref));
      if prev != 0 {
        SetNext(prev, id);
      }
      SetPrev(id, prev);
      SetNext(id, 0);
      NotedTailFirst(u0, id, prev);
      RelinkedParentChain(t0, tabs, id, ref);
      ghost var t3 := tabs;
      SetParent(id, ref);
      NotedAllAppend(u0, Maybe(prev) + [id, id], ParentSet(t3, id, ref).touched);
    }

    /**
     * close_tab: an open tab gets its closing time, is removed, and is put
     * back under its old parent.
     */
    method CloseTab(id: int, now: int)
      requires Removable(tabs, id)
      modifies this`tabs, this`updatedTabs
      ensures tabs == Closed(old(tabs), id, now).tabs
      ensures updatedTabs == NotedAll(old(updatedTabs), Closed(old(tabs), id, now).touched)
    {
      if tabs[id].closedAt != 0 {
        return;
      }
      ghost var t0, u0 := tabs, updatedTabs;
      var oldParent := tabs[id].parent;
      tabs := tabs[id := tabs[id].(closedAt := now)];
      ghost var t1 := tabs;
      assert SameParentsOff(t0, t1, 0);
      SameTree(t0, t1, oldParent);
      RemoveTab(id);
      ghost var e1 := tabs;
      ParentRestored(t1, id);
      SetParent(id, oldParent);
      NotedAllAppend(u0, Removed(t1, id).touched, ParentSet(e1, id, oldParent).touched);
    }

    /** Whether x lies on the chain from p up to the root: x is p or one of its ancestors. */
    method OnChain(x: int, p: int) returns (b: bool)
      requires Rooted(tabs, p)
      ensures b <==> x in Chain(tabs, p)
    {
      var q := p;
      ghost var seen: seq<int> := [];
      while q > 0
        invariant Rooted(tabs, q) && Chain(tabs, p) == seen + Chain(tabs, q) && x !in seen
        decreases |Chain(tabs, q)|
      {
        ChainUnfold(tabs, q);
        if q == x {
          return true;
        }
        seen := seen + [q];
        q := tabs[q].parent;
      }
      ChainOfRoot(tabs, q);
      return false;
    }

    /**
     * move_tab with the missing guard: nothing happens when the reference
     * is the tab itself or the new parent lies in the tab's own subtree;
     * otherwise the tab is removed and placed again.
     */
    method MoveTab(id: int, ref: int, rel: TabRelation)
      requires Movable(tabs, id, ref, rel)
      modifies this`tabs, this`updatedTabs
      ensures tabs == Moved(old(tabs), id, ref, rel).tabs
      ensures updatedTabs == NotedAll(old(updatedTabs), Moved(old(tabs), id, ref, rel).touched)
    {
      if ref == id {
        return;
      }
      var p := NewParent(tabs, ref, rel);
      var below := OnChain(id, p);
      if below {
        return;
      }
      ghost var t0, u0 := tabs, updatedTabs;
      MovablePlaceable(t0, id, ref, rel);
      RemoveTab(id);
      ghost var e1 := tabs;
      PlaceTab(id, ref, rel);
      NotedAllAppend(u0, Removed(t0, id).touched, Placed(e1, id, ref, rel).touched);
    }
  }
}
