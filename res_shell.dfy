/**
 * The older sidebar shell, which keeps its tabs in order by prev and next
 * sibling ids rather than by position keys. Each `tabs` command applies
 * every tuple first (creating, updating, removing and detaching records),
 * and only then inserts the detached items, each one before its next
 * sibling once that sibling is in the page, cascading to its previous
 * sibling. Focusing a tab expands it and all of its ancestors; expanding
 * shades the tab's list on alternate depths.
 *
 * The DOM is modelled as elements numbered from 1 (0 is the top list).
 * Each item element owns one child list under its own number; `lists`
 * holds every list's children in order and `up` each attached item's
 * parent list, as `parentNode` would.
 */
module ResShell {
  import opened Wrappers

  type Id = int
  type Elem = nat

  /** The sidebar's top list. */
  const TOP: Elem := 0

  /** One tuple of a `tabs` command, its numbers already converted. */
  datatype Update = Update(id: Id, parent: Id, prev: Id, next: Id, childCount: int,
                           title: string, url: string, loaded: bool, closedAt: int)

  /**
   * A record of `tabs_by_id` with the state of the elements it owns:
   * `expanded` is both the record's field and the item's class, `alt` the
   * list's class, `focused` and `loaded` the tab row's classes, `isParent`
   * the item's "parent" class, and `count` the child-count text.
   */
  datatype Tab = Tab(parent: Id, prev: Id, next: Id, url: string, expanded: bool, item: Elem,
                     tooltip: string, title: string, count: string, isParent: bool,
                     loaded: bool, focused: bool, alt: bool)

  datatype Sidebar = Sidebar(tabs: map<Id, Tab>, lists: map<Elem, seq<Elem>>, up: map<Elem, Elem>,
                             next: Elem, focusedId: Id, address: string)

  /** The state after a command, and whether it ran to the end or threw part way. */
  datatype Run = Ran(dom: Sidebar) | Threw(dom: Sidebar)

  const Initial := Sidebar(map[], map[TOP := []], map[], 1, 0, "")

  // ------------------------------------------------------------ texts

  function DigitChar(n: nat): char
    requires n < 10
  {
    "0123456789"[n]
  }

  /** A JavaScript number's decimal text, for an integer. */
  function NatText(n: nat): string
    decreases n
  {
    if n < 10 then [DigitChar(n)] else NatText(n / 10) + [DigitChar(n % 10)]
  }

  function IntText(n: int): string {
    if n < 0 then "-" + NatText(-n) else NatText(n)
  }

  /** The tab row's tooltip: the title, then the url if any, then the child count when above one. */
  function Tooltip(u: Update): string {
    u.title + (if u.url != "" then "\n" + u.url else "")
      + (if u.childCount > 1 then "\n(" + IntText(u.childCount) + ")" else "")
  }

  /** The title shown: the url stands in for an empty title. */
  function Shown(u: Update): string {
    if u.title == "" then u.url else u.title
  }

  /** The child-count text: "(n)" for a non-zero count, else empty. */
  function CountText(c: int): string {
    if c != 0 then "(" + IntText(c) + ")" else ""
  }

  // ------------------------------------------------------------ the element tree

  function ListAt(lists: map<Elem, seq<Elem>>, l: Elem): seq<Elem> {
    if l in lists then lists[l] else []
  }

  function Without(s: seq<Elem>, e: Elem): (r: seq<Elem>)
    ensures |r| <= |s|
  {
    if s == [] then []
    else if s[0] == e then Without(s[1..], e)
    else [s[0]] + Without(s[1..], e)
  }

  /** `isConnected`: following parent lists reaches the top list. */
  predicate Connected(up: map<Elem, Elem>, e: Elem, fuel: nat)
    decreases fuel
  {
    fuel > 0 && e in up && (up[e] == TOP || Connected(up, up[e], fuel - 1))
  }

  predicate IsConnected(d: Sidebar, e: Elem) {
    Connected(d.up, e, |d.up|)
  }

  /** `x` is `anc` or lies inside it. */
  predicate Within(up: map<Elem, Elem>, x: Elem, anc: Elem, fuel: nat)
    decreases fuel
  {
    x == anc || (fuel > 0 && x in up && Within(up, up[x], anc, fuel - 1))
  }

  /** `remove()`: the element leaves its parent list, if it has one. */
  function Detach(d: Sidebar, e: Elem): Sidebar {
    if e in d.up then
      var p := d.up[e];
      d.(lists := d.lists[p := Without(ListAt(d.lists, p), e)], up := d.up - {e})
    else d
  }

  function IndexOf(s: seq<Elem>, x: Elem): (i: nat)
    requires x in s
    ensures i < |s| && s[i] == x && x !in s[..i]
  {
    if s[0] == x then 0 else 1 + IndexOf(s[1..], x)
  }

  /** The list with `e` put before `before`, or at the end. */
  function InsertAt(s: seq<Elem>, e: Elem, before: Option<Elem>): seq<Elem> {
    if before.Some? && before.value in s then
      var i := IndexOf(s, before.value);
      s[..i] + [e] + s[i..]
    else s + [e]
  }

  /** `insertBefore`, which first takes the element out of wherever it is. */
  function Inserted(d: Sidebar, e: Elem, l: Elem, before: Option<Elem>): Sidebar {
    var d1 := Detach(d, e);
    d1.(lists := d1.lists[l := InsertAt(ListAt(d1.lists, l), e, before)], up := d1.up[e := l])
  }

  // ------------------------------------------------------------ commands.tabs

  /** The first loop's work on one tuple. */
  function Applied(d: Sidebar, u: Update): Sidebar {
    if u.closedAt != 0 then
      if u.id in d.tabs then
        var d1 := Detach(d, d.tabs[u.id].item);
        d1.(tabs := d1.tabs - {u.id})
      else d
    else if u.id !in d.tabs then
      var e := d.next;
      var tab := Tab(u.parent, u.prev, u.next, u.url, false, e, Tooltip(u), Shown(u),
                     CountText(u.childCount), u.childCount != 0, u.loaded, false, false);
      d.(tabs := d.tabs[u.id := tab], lists := d.lists[e := []], next := e + 1)
    else
      var old_ := d.tabs[u.id];
      var d1 := if u.parent != old_.parent || u.prev != old_.prev || u.next != old_.next
                then Detach(d, old_.item) else d;
      var tab := old_.(parent := u.parent, prev := u.prev, next := u.next, tooltip := Tooltip(u),
                       title := Shown(u), count := CountText(u.childCount),
                       isParent := u.childCount != 0, loaded := u.loaded);
      d1.(tabs := d1.tabs[u.id := tab],
          address := if d.focusedId == u.id then old_.url else d.address)
  }

  /** The item that `insertBefore` puts a tab before: its next sibling's, when that one is known. */
  function NextItem(d: Sidebar, tab: Tab): Option<Elem> {
    if tab.next != 0 && tab.next in d.tabs then Some(d.tabs[tab.next].item) else None
  }

  /**
   * insertIfNeeded: a known tab whose item is not in the page goes into
   * its parent's list, before its next sibling or at the end, once that
   * sibling is in the page; then its previous sibling is tried. An unknown
   * parent, a parent inside the tab itself, or a next sibling in another
   * list makes it throw. `fuel` bounds the recursion, which the source
   * leaves to the JavaScript stack.
   */
  function Cascade(d: Sidebar, id: Id, fuel: nat): Run
    decreases fuel
  {
    if id !in d.tabs then Ran(d)
    else
      var tab := d.tabs[id];
      var nxt := NextItem(d, tab);
      if IsConnected(d, tab.item) then Ran(d)
      else if nxt.Some? && !IsConnected(d, nxt.value) then Ran(d)
      else if tab.parent != 0 && tab.parent !in d.tabs then Threw(d)
      else
        var l := if tab.parent == 0 then TOP else d.tabs[tab.parent].item;
        if Within(d.up, l, tab.item, |d.up|) then Threw(d)
        else if nxt.Some? && nxt.value !in ListAt(d.lists, l) then Threw(d)
        else
          var d1 := Inserted(d, tab.item, l, nxt);
          if fuel == 0 then Threw(d1) else Cascade(d1, tab.prev, fuel - 1)
  }

  /** The recursion bound: one call per record. */
  function Fuel(d: Sidebar): nat {
    |d.tabs|
  }

  /** The first loop over a command's tuples. */
  function Pass1(d: Sidebar, us: seq<Update>): Sidebar
    decreases |us|
  {
    if us == [] then d else Applied(Pass1(d, us[..|us| - 1]), us[|us| - 1])
  }

  /** The second loop: insertIfNeeded for each tuple's id, stopping at a throw. */
  function Pass2(d: Sidebar, us: seq<Update>): Run
    decreases |us|
  {
    if us == [] then Ran(d)
    else
      var r := Pass2(d, us[..|us| - 1]);
      if r.Threw? then r else Cascade(r.dom, us[|us| - 1].id, Fuel(r.dom))
  }

  /** commands.tabs. */
  function Batch(d: Sidebar, us: seq<Update>): Run {
    Pass2(Pass1(d, us), us)
  }

  // ------------------------------------------------------------ expanding and focusing

  /** The parent-chain length from `id`, counting it; None when `fuel` steps do not leave the records. */
  function Chain(tabs: map<Id, Tab>, id: Id, fuel: nat): Option<nat>
    decreases fuel
  {
    if id !in tabs then Some(0)
    else if fuel == 0 then None
    else
      match Chain(tabs, tabs[id].parent, fuel - 1)
      case None => None
      case Some(n) => Some(n + 1)
  }

  /** expand_tab's depth: defined when the chain ends within as many steps as there are records. */
  function Depth(tabs: map<Id, Tab>, id: Id): Option<nat> {
    Chain(tabs, id, |tabs|)
  }

  /** expand_tab: expanded, and "alt" on the list iff the depth is even. */
  function Expanded(tabs: map<Id, Tab>, id: Id): Tab
    requires id in tabs && Depth(tabs, id).Some?
  {
    tabs[id].(expanded := true, alt := Depth(tabs, id).value % 2 == 0)
  }

  /** contract_tab: only `expanded` is cleared. */
  function Contracted(tabs: map<Id, Tab>, id: Id): Tab
    requires id in tabs
  {
    tabs[id].(expanded := false)
  }

  /** Two record maps with the same ids and the same parents. */
  predicate SameShape(a: map<Id, Tab>, b: map<Id, Tab>) {
    a.Keys == b.Keys && forall k :: k in a ==> a[k].parent == b[k].parent
  }

  lemma {:induction false} ChainShape(a: map<Id, Tab>, b: map<Id, Tab>, id: Id, fuel: nat)
    requires SameShape(a, b)
    ensures Chain(a, id, fuel) == Chain(b, id, fuel)
    decreases fuel
  {
    if id in a && fuel > 0 {
      ChainShape(a, b, a[id].parent, fuel - 1);
    }
  }

  /** expandUp: expand the tab, then its parent, and so on up the chain. */
  function ExpandedUp(tabs: map<Id, Tab>, id: Id, fuel: nat): (r: map<Id, Tab>)
    requires fuel <= |tabs| && Chain(tabs, id, fuel).Some?
    ensures SameShape(r, tabs)
    decreases fuel
  {
    if id !in tabs then tabs
    else
      ChainMore(tabs, id, fuel, |tabs|);
      var t1 := tabs[id := Expanded(tabs, id)];
      assert SameShape(t1, tabs);
      ChainShape(t1, tabs, tabs[id].parent, fuel - 1);
      var r := ExpandedUp(t1, tabs[id].parent, fuel - 1);
      r
  }

  /** commands.focus: the old tab loses "focused", the new one gains it and is expanded up to the top. */
  function Focused(d: Sidebar, id: Id): (r: Sidebar)
    requires Depth(d.tabs, id).Some?
    ensures SameShape(r.tabs, d.tabs)
  {
    var t0 := if d.focusedId in d.tabs then d.tabs[d.focusedId := d.tabs[d.focusedId].(focused := false)]
              else d.tabs;
    assert SameShape(t0, d.tabs);
    ChainShape(t0, d.tabs, id, |d.tabs|);
    if id !in t0 then d.(tabs := t0, focusedId := id)
    else
      var t1 := t0[id := t0[id].(focused := true)];
      assert SameShape(t1, d.tabs);
      ChainShape(t1, d.tabs, id, |d.tabs|);
      d.(tabs := ExpandedUp(t1, id, |t1|), focusedId := id, address := t1[id].url)
  }

  /** A longer walk gives the same answer once a shorter one has ended. */
  lemma {:induction false} ChainMore(tabs: map<Id, Tab>, id: Id, f: nat, g: nat)
    requires f <= g && Chain(tabs, id, f).Some?
    ensures Chain(tabs, id, g) == Chain(tabs, id, f)
    decreases f
  {
    if id in tabs {
      ChainMore(tabs, tabs[id].parent, f - 1, g - 1);
    }
  }

  // ------------------------------------------------------------ clicks

  datatype Message = Focus(id: Id) | Load(id: Id) | Close(id: Id)

  /** What a click posts, or Threw when it reads a field of a missing record. */
  datatype Click = Posted(msg: Message) | Nothing | ClickThrew

  /** on_tab_clicked on the item of tab `id`. Records have no `loaded` field, so it always reads as falsy. */
  function TabClicked(d: Sidebar, id: Id, button: int): Click {
    if button == 0 then
      if d.focusedId != id then Posted(Focus(id))
      else if id !in d.tabs then ClickThrew
      else Posted(Load(id))
    else if button == 1 then Posted(Close(id))
    else Nothing
  }

  /** on_close_clicked on the close button inside the item of tab `id`. */
  function CloseClicked(id: Id): Click {
    Posted(Close(id))
  }

  // ------------------------------------------------------------ properties: the element tree

  /**
   * The element tree is well formed: every attached element sits in its
   * parent's list and every listed element points back at that list, the
   * top list is never attached anywhere, numbers at or above `next` are
   * unused, and every record's item owns a list.
   */
  predicate Consistent(d: Sidebar) {
    0 < d.next && TOP in d.lists && TOP !in d.up &&
    TreeOk(d.lists, d.up, d.next) && RecordsOk(d.tabs, d.lists, d.next)
  }

  /** Parent pointers and child lists agree, and no number at or above `next` is used. */
  predicate TreeOk(lists: map<Elem, seq<Elem>>, up: map<Elem, Elem>, next: Elem) {
    (forall l :: l in lists ==> l < next) &&
    (forall e :: e in up ==> e < next && e in ListAt(lists, up[e])) &&
    (forall l, e :: l in lists && e in lists[l] ==> e in up && up[e] == l)
  }

  /** Every record's item is a used element that owns a list. */
  predicate RecordsOk(tabs: map<Id, Tab>, lists: map<Elem, seq<Elem>>, next: Elem) {
    forall id :: id in tabs ==> 0 < tabs[id].item < next && tabs[id].item in lists
  }

  lemma {:induction false} WithoutSpec(s: seq<Elem>, e: Elem)
    ensures forall x :: x in Without(s, e) <==> x in s && x != e
  {
    if s != [] {
      WithoutSpec(s[1..], e);
    }
  }

  lemma {:induction false} InsertAtSpec(s: seq<Elem>, e: Elem, before: Option<Elem>)
    ensures forall x :: x in InsertAt(s, e, before) <==> x in s || x == e
  {
    if before.Some? && before.value in s {
      var i := IndexOf(s, before.value);
      assert s == s[..i] + s[i..];
    }
  }

  /** After `remove()` the element is attached nowhere and in no list, and the tree stays well formed. */
  lemma {:induction false} DetachConsistent(d: Sidebar, e: Elem)
    requires Consistent(d)
    ensures var r := Detach(d, e);
      Consistent(r) && e !in r.up && (forall l :: l in r.lists ==> e !in r.lists[l]) &&
      r.tabs == d.tabs && r.next == d.next && r.lists.Keys == d.lists.Keys
  {
    if e in d.up {
      WithoutSpec(ListAt(d.lists, d.up[e]), e);
    }
  }

  /** `insertBefore` keeps the tree well formed and attaches the element to the list it names. */
  lemma {:induction false} InsertedConsistent(d: Sidebar, e: Elem, l: Elem, before: Option<Elem>)
    requires Consistent(d) && 0 < e < d.next && l in d.lists
    ensures var r := Inserted(d, e, l, before);
      Consistent(r) && r.up == Detach(d, e).up[e := l] && e in r.lists[l] &&
      r.tabs == d.tabs && r.next == d.next && r.lists.Keys == d.lists.Keys
  {
    var d1 := Detach(d, e);
    DetachConsistent(d, e);
    var s := ListAt(d1.lists, l);
    InsertAtSpec(s, e, before);
    var r := Inserted(d, e, l, before);
    forall x | x in r.up
      ensures x in ListAt(r.lists, r.up[x])
    {
      if x != e && d1.up[x] != l {
        assert ListAt(r.lists, r.up[x]) == ListAt(d1.lists, d1.up[x]);
      }
    }
    forall k, x | k in r.lists && x in r.lists[k]
      ensures x in r.up && r.up[x] == k
    {
      if k != l {
        assert x in d1.lists[k];
      } else if x != e {
        assert x in d1.lists[k];
      }
    }
  }

  /** Each tuple of the first loop keeps the tree well formed. */
  lemma {:induction false} AppliedConsistent(d: Sidebar, u: Update)
    requires Consistent(d)
    ensures Consistent(Applied(d, u))
  {
    if u.closedAt != 0 {
      if u.id in d.tabs {
        DetachConsistent(d, d.tabs[u.id].item);
      }
    } else if u.id in d.tabs {
      DetachConsistent(d, d.tabs[u.id].item);
    } else {
      var e := d.next;
      assert e !in d.up && e !in d.lists;
    }
  }

  lemma {:induction false} Pass1Consistent(d: Sidebar, us: seq<Update>)
    requires Consistent(d)
    ensures Consistent(Pass1(d, us))
    decreases |us|
  {
    if us != [] {
      Pass1Consistent(d, us[..|us| - 1]);
      AppliedConsistent(Pass1(d, us[..|us| - 1]), us[|us| - 1]);
    }
  }

  /** insertIfNeeded either leaves the page as it was or inserts the tab and goes on to its previous sibling. */
  lemma {:induction false} CascadeStep(d: Sidebar, id: Id, fuel: nat)
    requires id in d.tabs
    ensures var tab := d.tabs[id]; var r := Cascade(d, id, fuel);
      r.dom == d ||
      ((tab.parent == 0 || tab.parent in d.tabs) &&
       var l := if tab.parent == 0 then TOP else d.tabs[tab.parent].item;
       var d1 := Inserted(d, tab.item, l, NextItem(d, tab));
       (fuel == 0 && r == Threw(d1)) || (fuel > 0 && r == Cascade(d1, tab.prev, fuel - 1)))
  {
  }

  /** insertIfNeeded keeps the tree well formed, whether it finishes or throws, and touches no record. */
  lemma {:induction false} CascadeConsistent(d: Sidebar, id: Id, fuel: nat)
    requires Consistent(d)
    ensures Consistent(Cascade(d, id, fuel).dom) && Cascade(d, id, fuel).dom.tabs == d.tabs
    decreases fuel
  {
    if Cascade(d, id, fuel).dom != d {
      var d1 := CascadeStepConsistent(d, id, fuel);
      if fuel > 0 {
        CascadeConsistent(d1, d.tabs[id].prev, fuel - 1);
      }
    }
  }

  /** One step of the cascade that changes the page inserts into a consistent page and keeps the records. */
  lemma {:induction false} CascadeStepConsistent(d: Sidebar, id: Id, fuel: nat) returns (d1: Sidebar)
    requires Consistent(d) && Cascade(d, id, fuel).dom != d
    ensures id in d.tabs && Consistent(d1) && d1.tabs == d.tabs
    ensures fuel == 0 ==> Cascade(d, id, fuel) == Threw(d1)
    ensures fuel > 0 ==> Cascade(d, id, fuel) == Cascade(d1, d.tabs[id].prev, fuel - 1)
  {
    assert id in d.tabs;
    CascadeStep(d, id, fuel);
    var tab := d.tabs[id];
    var l := if tab.parent == 0 then TOP else d.tabs[tab.parent].item;
    var nxt := NextItem(d, tab);
    InsertedConsistent(d, tab.item, l, nxt);
    d1 := Inserted(d, tab.item, l, nxt);
  }

  lemma {:induction false} Pass2Consistent(d: Sidebar, us: seq<Update>)
    requires Consistent(d)
    ensures Consistent(Pass2(d, us).dom) && Pass2(d, us).dom.tabs == d.tabs
    decreases |us|
  {
    if us != [] {
      Pass2Consistent(d, us[..|us| - 1]);
      var r := Pass2(d, us[..|us| - 1]);
      if r.Ran? {
        CascadeConsistent(r.dom, us[|us| - 1].id, Fuel(r.dom));
      }
    }
  }

  /** A `tabs` command leaves a well-formed tree, whether it finishes or throws. */
  lemma {:induction false} BatchConsistent(d: Sidebar, us: seq<Update>)
    requires Consistent(d)
    ensures Consistent(Batch(d, us).dom)
  {
    Pass1Consistent(d, us);
    Pass2Consistent(Pass1(d, us), us);
  }

  lemma InitialConsistent()
    ensures Consistent(Initial)
  {
  }

  // ------------------------------------------------------------ properties: one tuple

  /**
   * A closed tuple removes a known tab's record and takes its item out of
   * every list, and leaves an unknown id's page as it was.
   */
  lemma {:induction false} ClosedRemoves(d: Sidebar, u: Update)
    requires Consistent(d) && u.closedAt != 0
    ensures var r := Applied(d, u);
      u.id !in r.tabs && (forall k :: k in d.tabs && k != u.id ==> k in r.tabs && r.tabs[k] == d.tabs[k]) &&
      (u.id in d.tabs ==> forall l :: l in r.lists ==> d.tabs[u.id].item !in r.lists[l]) &&
      (u.id !in d.tabs ==> r == d)
  {
    if u.id in d.tabs {
      DetachConsistent(d, d.tabs[u.id].item);
    }
  }

  /**
   * A known tab's tuple stores the new links and texts; its item leaves
   * the page exactly when the parent, prev or next changed. The record's
   * url is the one it was created with, and that is what the address
   * field shows for the focused tab.
   */
  lemma {:induction false} UpdatedLinks(d: Sidebar, u: Update)
    requires Consistent(d) && u.closedAt == 0 && u.id in d.tabs
    ensures var r := Applied(d, u); var t := r.tabs[u.id];
      u.id in r.tabs && t.parent == u.parent && t.prev == u.prev && t.next == u.next &&
      t.item == d.tabs[u.id].item && t.url == d.tabs[u.id].url && t.tooltip == Tooltip(u) &&
      (if u.parent != d.tabs[u.id].parent || u.prev != d.tabs[u.id].prev || u.next != d.tabs[u.id].next
       then t.item !in r.up && forall l :: l in r.lists ==> t.item !in r.lists[l]
       else r.lists == d.lists && r.up == d.up) &&
      r.address == (if d.focusedId == u.id then d.tabs[u.id].url else d.address)
  {
    DetachConsistent(d, d.tabs[u.id].item);
  }

  /** A new id's tuple creates a record whose fresh item is in no list and owns an empty one. */
  lemma {:induction false} CreatedDetached(d: Sidebar, u: Update)
    requires Consistent(d) && u.closedAt == 0 && u.id !in d.tabs
    ensures var r := Applied(d, u); var t := r.tabs[u.id];
      u.id in r.tabs && t.parent == u.parent && t.prev == u.prev && t.next == u.next &&
      !t.expanded && (forall k :: k in d.tabs ==> d.tabs[k].item != t.item) && t.item !in r.up &&
      (forall l :: l in r.lists && l != t.item ==> t.item !in r.lists[l]) && r.lists[t.item] == []
  {
    var e := d.next;
    assert forall l :: l in d.lists && e in d.lists[l] ==> e in d.up;
  }

  // ------------------------------------------------------------ properties: the order of insertion

  /**
   * `c` is a run of top-level siblings linked first to last by prev and
   * next, with distinct ids and with the distinct items `its`, none of them
   * in the page; no record has the id 0 that ends the links.
   */
  predicate LinkedRun(d: Sidebar, c: seq<Id>, its: seq<Elem>) {
    |c| > 0 && |its| == |c| && 0 !in d.tabs && TOP !in d.up &&
    (forall i, j :: 0 <= i < j < |c| ==> c[i] != c[j]) &&
    (forall i :: 0 <= i < |c| ==> c[i] in d.tabs && d.tabs[c[i]].item == its[i] && d.tabs[c[i]].parent == 0) &&
    d.tabs[c[0]].prev == 0 && d.tabs[c[|c| - 1]].next == 0 &&
    (forall i, j :: 0 <= i && j == i + 1 < |c| ==> d.tabs[c[i]].next == c[j] && d.tabs[c[j]].prev == c[i]) &&
    (forall i, j :: 0 <= i < j < |its| ==> its[i] != its[j]) &&
    (forall i :: 0 <= i < |its| ==> its[i] != TOP && its[i] !in d.up && its[i] !in ListAt(d.lists, TOP))
  }

  /** Part way: the items from `j` on follow the old top list, and the earlier ones are out of the page. */
  predicate Stage(d0: Sidebar, its: seq<Elem>, j: nat, d: Sidebar) {
    j <= |its| && d.tabs == d0.tabs && TOP !in d.up &&
    ListAt(d.lists, TOP) == ListAt(d0.lists, TOP) + its[j..] &&
    (forall i :: 0 <= i < j ==> its[i] !in d.up) &&
    (forall i :: j <= i < |its| ==> its[i] in d.up && d.up[its[i]] == TOP)
  }

  /** Putting item `k` before item `k + 1` (or last) in `l0 + its[k + 1..]` gives `l0 + its[k..]`. */
  lemma {:induction false} InsertAtRun(l0: seq<Elem>, its: seq<Elem>, k: nat, nxt: Option<Elem>)
    requires k < |its| && forall i :: 0 <= i < |its| ==> its[i] !in l0
    requires nxt == if k == |its| - 1 then None else Some(its[k + 1])
    ensures InsertAt(l0 + its[k + 1..], its[k], nxt) == l0 + its[k..]
  {
    var s := l0 + its[k + 1..];
    assert its[k..] == [its[k]] + its[k + 1..];
    if k < |its| - 1 {
      var x := its[k + 1];
      assert s[|l0|] == x;
      var i := IndexOf(s, x);
      assert s[..|l0|] == l0 && s[|l0|..] == its[k + 1..];
      assert x !in s[..|l0|];
      assert forall m :: 0 <= m < i ==> s[..i][m] == s[m];
      assert i == |l0|;
    }
  }

  /** One insertion of the run's item `k` extends the stage from `k + 1` down to `k`. */
  lemma {:induction false} InsertStep(d0: Sidebar, c: seq<Id>, its: seq<Elem>, k: nat, d: Sidebar)
    requires LinkedRun(d0, c, its) && k < |c| && Stage(d0, its, k + 1, d)
    ensures var nxt := if k == |c| - 1 then None else Some(its[k + 1]);
      Stage(d0, its, k, Inserted(d, its[k], TOP, nxt))
  {
    var nxt := if k == |c| - 1 then None else Some(its[k + 1]);
    var e := its[k];
    InsertAtRun(ListAt(d0.lists, TOP), its, k, nxt);
    var r := Inserted(d, e, TOP, nxt);
    assert Detach(d, e) == d;
    assert r.up == d.up[e := TOP];
    forall i | 0 <= i < k
      ensures its[i] !in r.up
    {
      assert its[i] != e;
    }
  }

  /**
   * From stage `k + 1`, insertIfNeeded on the run's tab `k` inserts it and
   * goes on to its previous sibling; `d1` is the page after the insertion.
   */
  lemma {:induction false} CascadeRunStep(d0: Sidebar, c: seq<Id>, its: seq<Elem>, k: nat, d: Sidebar, fuel: nat) returns (d1: Sidebar)
    requires LinkedRun(d0, c, its) && k < |c| && Stage(d0, its, k + 1, d) && 0 < fuel
    ensures 0 < k ==> Outcome(d, c[k], fuel) == Outcome(d1, c[k - 1], fuel - 1)
    ensures k == 0 ==> Outcome(d, c[k], fuel) == Outcome(d1, 0, fuel - 1)
    ensures Stage(d0, its, k, d1)
  {
    if 0 < k {
      assert c[k - 1] == c[k - 1] && c[k] == c[k];
    }
    var nxt := if k == |c| - 1 then None else Some(its[k + 1]);
    var tab := d.tabs[c[k]];
    assert tab.item == its[k] && tab.item !in d.up;
    assert !IsConnected(d, tab.item);
    if k < |c| - 1 {
      var n := its[k + 1];
      assert c[k + 1] in d.tabs && c[k + 1] != 0;
      assert n in d.up && d.up[n] == TOP;
      assert IsConnected(d, n);
      assert ListAt(d.lists, TOP)[|ListAt(d0.lists, TOP)|] == n;
    }
    if k < |c| - 1 {
      assert tab.next == c[k + 1];
      assert d.tabs[c[k + 1]].item == its[k + 1];
    }
    assert NextItem(d, tab) == nxt;
    assert !Within(d.up, TOP, tab.item, |d.up|);
    InsertStep(d0, c, its, k, d);
    d1 := Inserted(d, its[k], TOP, nxt);
  }

  /**
   * The cascade's result under a name of its own. The run lemmas below state
   * their steps with it so that the recursive Cascade is not unfolded in them.
   */
  function Outcome(d: Sidebar, id: Id, fuel: nat): Run {
    Cascade(d, id, fuel)
  }

  /** The first tab of the run: inserted, and its previous id 0 names no record, so the cascade ends. */
  lemma {:induction false} CascadeRunFirst(d0: Sidebar, c: seq<Id>, its: seq<Elem>, d: Sidebar, fuel: nat)
    requires LinkedRun(d0, c, its) && Stage(d0, its, 1, d) && 0 < fuel
    ensures Outcome(d, c[0], fuel).Ran? && Stage(d0, its, 0, Outcome(d, c[0], fuel).dom)
  {
    var d1 := CascadeRunStep(d0, c, its, 0, d, fuel);
    assert Cascade(d1, 0, fuel - 1) == Ran(d1);
  }

  /** From stage `k + 1`, insertIfNeeded on the run's tab `k` cascades down to the first. */
  lemma {:induction false} CascadeRun(d0: Sidebar, c: seq<Id>, its: seq<Elem>, k: nat, d: Sidebar, fuel: nat)
    requires LinkedRun(d0, c, its) && k < |c| && Stage(d0, its, k + 1, d) && k < fuel
    ensures Outcome(d, c[k], fuel).Ran? && Stage(d0, its, 0, Outcome(d, c[k], fuel).dom)
  {
    if k == 0 {
      CascadeRunFirst(d0, c, its, d, fuel);
    } else {
      var d1 := CascadeRunStep(d0, c, its, k, d, fuel);
      CascadeRun(d0, c, its, k - 1, d1, fuel - 1);
    }
  }

  lemma {:induction false} DistinctSize(c: seq<Id>, s: set<Id>)
    requires forall i, j :: 0 <= i < j < |c| ==> c[i] != c[j]
    requires forall i :: 0 <= i < |c| ==> c[i] in s
    ensures |c| <= |s|
    decreases |c|
  {
    if c != [] {
      forall i | 0 <= i < |c| - 1
        ensures c[1..][i] in s - {c[0]}
      {
        assert c[1..][i] == c[i + 1];
      }
      DistinctSize(c[1..], s - {c[0]});
    }
  }

  /** insertIfNeeded on a tab of the run changes nothing at either end stage, but for the last one from the start. */
  lemma {:induction false} CascadeAtStage(d0: Sidebar, c: seq<Id>, its: seq<Elem>, k: nat, d: Sidebar)
    requires LinkedRun(d0, c, its) && k < |c|
    requires Stage(d0, its, |c|, d) || Stage(d0, its, 0, d)
    ensures Cascade(d, c[k], Fuel(d)).Ran?
    ensures Stage(d0, its, |c|, Cascade(d, c[k], Fuel(d)).dom) || Stage(d0, its, 0, Cascade(d, c[k], Fuel(d)).dom)
    ensures k == |c| - 1 ==> Stage(d0, its, 0, Cascade(d, c[k], Fuel(d)).dom)
  {
    var tab := d.tabs[c[k]];
    assert tab.item == its[k];
    if Stage(d0, its, 0, d) {
      assert IsConnected(d, tab.item);
    } else if k == |c| - 1 {
      DistinctSize(c, d0.tabs.Keys);
      CascadeRun(d0, c, its, k, d, Fuel(d));
    } else {
      assert c[k + 1] in d.tabs && c[k + 1] != 0;
      assert NextItem(d, tab) == Some(its[k + 1]);
      assert !IsConnected(d, its[k + 1]);
    }
  }

  /**
   * The second loop over any batch naming only tabs of the run ends in one
   * of two stages, nothing inserted or the whole run in order, and in the
   * second once the last sibling has been named.
   */
  lemma {:induction false} Pass2Run(d0: Sidebar, c: seq<Id>, its: seq<Elem>, us: seq<Update>)
    requires LinkedRun(d0, c, its) && forall i :: 0 <= i < |us| ==> us[i].id in c
    ensures Pass2(d0, us).Ran?
    ensures Stage(d0, its, |c|, Pass2(d0, us).dom) || Stage(d0, its, 0, Pass2(d0, us).dom)
    ensures (exists i :: 0 <= i < |us| && us[i].id == c[|c| - 1]) ==> Stage(d0, its, 0, Pass2(d0, us).dom)
    decreases |us|
  {
    if us == [] {
      assert its[|c|..] == [];
      assert ListAt(d0.lists, TOP) + its[|c|..] == ListAt(d0.lists, TOP);
    } else {
      var us' := us[..|us| - 1];
      assert forall i :: 0 <= i < |us'| ==> us'[i] == us[i];
      Pass2Run(d0, c, its, us');
      var d := Pass2(d0, us').dom;
      var k :| 0 <= k < |c| && c[k] == us[|us| - 1].id;
      assert Pass2(d0, us) == Cascade(d, c[k], Fuel(d));
      CascadeAtStage(d0, c, its, k, d);
      if exists i :: 0 <= i < |us| && us[i].id == c[|c| - 1] {
        var i :| 0 <= i < |us| && us[i].id == c[|c| - 1];
        if i < |us| - 1 {
          assert us'[i].id == c[|c| - 1];
        } else {
          assert k == |c| - 1;
        }
      }
    }
  }

  /**
   * The order of a batch does not change where the run ends up: the second
   * loop over any batch that names only the run's tabs, the last one among
   * them, leaves the run's items at the end of the top list in sibling order.
   */
  lemma {:induction false} InsertionOrderIndependent(d: Sidebar, c: seq<Id>, its: seq<Elem>, us: seq<Update>, i: nat)
    requires LinkedRun(d, c, its) && forall j :: 0 <= j < |us| ==> us[j].id in c
    requires i < |us| && us[i].id == c[|c| - 1]
    ensures Pass2(d, us).Ran?
    ensures ListAt(Pass2(d, us).dom.lists, TOP) == ListAt(d.lists, TOP) + its
  {
    Pass2Run(d, c, its, us);
    assert its[0..] == its;
  }

  /** Once the second loop has thrown, later tuples change nothing. */
  lemma {:induction false} Pass2Sticks(d: Sidebar, us: seq<Update>, k: nat)
    requires 0 < k <= |us| && Pass2(d, us[..k]).Threw?
    ensures Pass2(d, us) == Pass2(d, us[..k])
    decreases |us|
  {
    if k < |us| {
      assert us[..|us| - 1][..k] == us[..k];
      Pass2Sticks(d, us[..|us| - 1], k);
    } else {
      assert us[..k] == us;
    }
  }

  // ------------------------------------------------------------ properties: expanding and focus

  /** `k` is `id` or one of its ancestors, reached within `fuel` parent steps. */
  predicate Above(tabs: map<Id, Tab>, k: Id, id: Id, fuel: nat)
    decreases fuel
  {
    id in tabs && (k == id || (fuel > 0 && Above(tabs, k, tabs[id].parent, fuel - 1)))
  }

  lemma {:induction false} AboveShape(a: map<Id, Tab>, b: map<Id, Tab>, k: Id, id: Id, fuel: nat)
    requires SameShape(a, b)
    ensures Above(a, k, id, fuel) == Above(b, k, id, fuel)
    decreases fuel
  {
    if id in a && k != id && fuel > 0 {
      AboveShape(a, b, k, a[id].parent, fuel - 1);
    }
  }

  /** A tab's depth is one more than its parent's, so "alt" differs between a list and the lists inside it. */
  lemma {:induction false} AltAlternates(tabs: map<Id, Tab>, id: Id)
    requires id in tabs && tabs[id].parent in tabs && Depth(tabs, id).Some?
    ensures Depth(tabs, tabs[id].parent).Some?
    ensures Depth(tabs, id).value == Depth(tabs, tabs[id].parent).value + 1
    ensures Expanded(tabs, id).alt != Expanded(tabs, tabs[id].parent).alt
  {
    var p := tabs[id].parent;
    ChainMore(tabs, p, |tabs| - 1, |tabs|);
  }

  /**
   * expandUp expands exactly the tab and its ancestors, each with "alt" set
   * from its own depth, and leaves every other record alone.
   */
  lemma {:induction false} ExpandedUpSpec(tabs: map<Id, Tab>, id: Id, fuel: nat, k: Id)
    requires fuel <= |tabs| && Chain(tabs, id, fuel).Some? && k in tabs
    ensures k in ExpandedUp(tabs, id, fuel)
    ensures Above(tabs, k, id, fuel) ==>
              Depth(tabs, k).Some? &&
              ExpandedUp(tabs, id, fuel)[k] == tabs[k].(expanded := true, alt := Depth(tabs, k).value % 2 == 0)
    ensures !Above(tabs, k, id, fuel) ==> ExpandedUp(tabs, id, fuel)[k] == tabs[k]
    decreases fuel
  {
    if id in tabs {
      var p := tabs[id].parent;
      ChainMore(tabs, id, fuel, |tabs|);
      var t1 := tabs[id := Expanded(tabs, id)];
      assert SameShape(t1, tabs);
      ChainShape(t1, tabs, p, fuel - 1);
      ChainShape(t1, tabs, k, |tabs|);
      AboveShape(t1, tabs, k, p, fuel - 1);
      ExpandedUpSpec(t1, p, fuel - 1, k);
    }
  }

  /** Clicking the expander twice restores the record, but for "alt", which now follows the depth. */
  function ExpandToggled(tabs: map<Id, Tab>, id: Id): (r: map<Id, Tab>)
    requires id in tabs && (!tabs[id].expanded ==> Depth(tabs, id).Some?)
    ensures SameShape(r, tabs)
  {
    if tabs[id].expanded then tabs[id := Contracted(tabs, id)] else tabs[id := Expanded(tabs, id)]
  }

  lemma {:induction false} ToggleTwice(tabs: map<Id, Tab>, id: Id)
    requires id in tabs && Depth(tabs, id).Some?
    ensures Depth(ExpandToggled(tabs, id), id).Some?
    ensures ExpandToggled(ExpandToggled(tabs, id), id) == tabs[id := tabs[id].(alt := Depth(tabs, id).value % 2 == 0)]
  {
    ChainShape(ExpandToggled(tabs, id), tabs, id, |tabs|);
  }

  /** Only the record of `focused_id`, if any, carries the "focused" class. */
  predicate FocusMarked(d: Sidebar) {
    forall k :: k in d.tabs && d.tabs[k].focused ==> k == d.focusedId
  }

  /** Two records that agree on everything but the classes "focused", "expanded" and "alt". */
  predicate SameContent(a: Tab, b: Tab) {
    a.parent == b.parent && a.prev == b.prev && a.next == b.next && a.url == b.url && a.item == b.item &&
    a.tooltip == b.tooltip && a.title == b.title && a.count == b.count && a.isParent == b.isParent &&
    a.loaded == b.loaded
  }

  /** expandUp touches only "expanded" and "alt", and leaves the starting tab expanded. */
  lemma {:induction false} ExpandedUpFields(tabs: map<Id, Tab>, id: Id, fuel: nat, k: Id)
    requires fuel <= |tabs| && Chain(tabs, id, fuel).Some? && k in tabs
    ensures k in ExpandedUp(tabs, id, fuel)
    ensures SameContent(ExpandedUp(tabs, id, fuel)[k], tabs[k])
    ensures ExpandedUp(tabs, id, fuel)[k].focused == tabs[k].focused
    ensures k == id ==> ExpandedUp(tabs, id, fuel)[k].expanded
    decreases fuel
  {
    if id in tabs {
      ChainMore(tabs, id, fuel, |tabs|);
      var t1 := tabs[id := Expanded(tabs, id)];
      assert SameShape(t1, tabs);
      ChainShape(t1, tabs, tabs[id].parent, fuel - 1);
      ExpandedUpFields(t1, tabs[id].parent, fuel - 1, k);
      if k == id {
        ExpandedUpKeepsExpanded(t1, tabs[id].parent, fuel - 1, k);
      }
    }
  }

  lemma {:induction false} ExpandedUpKeepsExpanded(tabs: map<Id, Tab>, id: Id, fuel: nat, k: Id)
    requires fuel <= |tabs| && Chain(tabs, id, fuel).Some? && k in tabs && tabs[k].expanded
    ensures k in ExpandedUp(tabs, id, fuel) && ExpandedUp(tabs, id, fuel)[k].expanded
    decreases fuel
  {
    if id in tabs {
      ChainMore(tabs, id, fuel, |tabs|);
      var t1 := tabs[id := Expanded(tabs, id)];
      assert SameShape(t1, tabs);
      ChainShape(t1, tabs, tabs[id].parent, fuel - 1);
      ExpandedUpKeepsExpanded(t1, tabs[id].parent, fuel - 1, k);
    }
  }

  /**
   * commands.focus moves the mark: the new tab is marked and every other
   * record loses the mark.
   */
  lemma {:induction false} FocusMoves(d: Sidebar, id: Id, k: Id)
    requires Depth(d.tabs, id).Some? && k in d.tabs
    ensures Focused(d, id).focusedId == id && Focused(d, id).tabs.Keys == d.tabs.Keys
    ensures k in Focused(d, id).tabs
    ensures Focused(d, id).tabs[k].focused == (k == id || (d.tabs[k].focused && k != d.focusedId))
  {
    var t0 := if d.focusedId in d.tabs then d.tabs[d.focusedId := d.tabs[d.focusedId].(focused := false)]
              else d.tabs;
    assert SameShape(t0, d.tabs);
    if id in t0 {
      var t1 := t0[id := t0[id].(focused := true)];
      assert SameShape(t1, d.tabs);
      ChainShape(t1, d.tabs, id, |d.tabs|);
      assert Focused(d, id).tabs == ExpandedUp(t1, id, |t1|);
      ExpandedUpFields(t1, id, |t1|, k);
    }
  }

  /** Focusing changes no record but for its mark, "expanded" and "alt". */
  lemma {:induction false} FocusKeepsRest(d: Sidebar, id: Id, k: Id)
    requires Depth(d.tabs, id).Some? && k in d.tabs
    ensures k in Focused(d, id).tabs && SameContent(Focused(d, id).tabs[k], d.tabs[k])
  {
    var t0 := if d.focusedId in d.tabs then d.tabs[d.focusedId := d.tabs[d.focusedId].(focused := false)]
              else d.tabs;
    assert SameShape(t0, d.tabs);
    assert SameContent(t0[k], d.tabs[k]);
    if id in t0 {
      var t1 := t0[id := t0[id].(focused := true)];
      assert SameContent(t1[k], d.tabs[k]);
      assert SameShape(t1, d.tabs);
      ChainShape(t1, d.tabs, id, |d.tabs|);
      assert Focused(d, id).tabs == ExpandedUp(t1, id, |t1|);
      ExpandedUpFields(t1, id, |t1|, k);
    }
  }

  /** The focused tab is expanded and its url is shown in the address field. */
  lemma {:induction false} FocusShows(d: Sidebar, id: Id)
    requires Depth(d.tabs, id).Some? && id in d.tabs
    ensures id in Focused(d, id).tabs && Focused(d, id).tabs[id].expanded
    ensures Focused(d, id).address == d.tabs[id].url
  {
    var t0 := if d.focusedId in d.tabs then d.tabs[d.focusedId := d.tabs[d.focusedId].(focused := false)]
              else d.tabs;
    assert SameShape(t0, d.tabs);
    if id in t0 {
      var t1 := t0[id := t0[id].(focused := true)];
      assert SameShape(t1, d.tabs);
      ChainShape(t1, d.tabs, id, |d.tabs|);
      assert Focused(d, id).tabs == ExpandedUp(t1, id, |t1|);
      ExpandedUpFields(t1, id, |t1|, id);
    }
  }

  lemma {:induction false} FocusKeepsMark(d: Sidebar, id: Id)
    requires Depth(d.tabs, id).Some? && FocusMarked(d)
    ensures FocusMarked(Focused(d, id))
  {
    forall k | k in Focused(d, id).tabs && Focused(d, id).tabs[k].focused
      ensures k == id
    {
      FocusMoves(d, id, k);
    }
  }

  lemma {:induction false} AppliedKeepsMark(d: Sidebar, u: Update)
    requires FocusMarked(d)
    ensures FocusMarked(Applied(d, u)) && Applied(d, u).focusedId == d.focusedId
  {
  }

  lemma {:induction false} CascadeKeepsRecords(d: Sidebar, id: Id, fuel: nat)
    ensures Cascade(d, id, fuel).dom.tabs == d.tabs && Cascade(d, id, fuel).dom.focusedId == d.focusedId
    decreases fuel
  {
    if id in d.tabs && Cascade(d, id, fuel).dom != d {
      CascadeStep(d, id, fuel);
      var tab := d.tabs[id];
      var l := if tab.parent == 0 then TOP else d.tabs[tab.parent].item;
      var d1 := Inserted(d, tab.item, l, NextItem(d, tab));
      assert d1.tabs == d.tabs && d1.focusedId == d.focusedId;
      if fuel > 0 {
        CascadeKeepsRecords(d1, tab.prev, fuel - 1);
      }
    }
  }

  /** The tabs command keeps the mark where it is: it neither marks a record nor moves `focused_id`. */
  lemma {:induction false} BatchKeepsMark(d: Sidebar, us: seq<Update>)
    requires FocusMarked(d)
    ensures FocusMarked(Batch(d, us).dom) && Batch(d, us).dom.focusedId == d.focusedId
    decreases |us|
  {
    Pass1KeepsMark(d, us);
    Pass2KeepsRecords(Pass1(d, us), us);
  }

  lemma {:induction false} Pass1KeepsMark(d: Sidebar, us: seq<Update>)
    requires FocusMarked(d)
    ensures FocusMarked(Pass1(d, us)) && Pass1(d, us).focusedId == d.focusedId
    decreases |us|
  {
    if us != [] {
      Pass1KeepsMark(d, us[..|us| - 1]);
      AppliedKeepsMark(Pass1(d, us[..|us| - 1]), us[|us| - 1]);
    }
  }

  lemma {:induction false} Pass2KeepsRecords(d: Sidebar, us: seq<Update>)
    ensures Pass2(d, us).dom.tabs == d.tabs && Pass2(d, us).dom.focusedId == d.focusedId
    decreases |us|
  {
    if us != [] {
      Pass2KeepsRecords(d, us[..|us| - 1]);
      var r := Pass2(d, us[..|us| - 1]);
      CascadeKeepsRecords(r.dom, us[|us| - 1].id, Fuel(r.dom));
    }
  }

  /**
   * A left click on an unfocused tab asks for focus; once the focus command
   * has come back, the same click asks for a load instead.
   */
  lemma {:induction false} ClickFocusThenLoad(d: Sidebar, id: Id)
    requires id in d.tabs && Depth(d.tabs, id).Some?
    ensures d.focusedId != id ==> TabClicked(d, id, 0) == Posted(Focus(id))
    ensures TabClicked(Focused(d, id), id, 0) == Posted(Load(id))
    ensures TabClicked(Focused(d, id), id, 1) == TabClicked(d, id, 1) == CloseClicked(id)
  {
    FocusMoves(d, id, id);
  }

  // ------------------------------------------------------------ the script's state

  /** The shell page: `tabs_by_id`, the element tree, `focused_id` and the address field. */
  class Shell {
    var tabs: map<Id, Tab>
    var lists: map<Elem, seq<Elem>>
    var up: map<Elem, Elem>
    var next: Elem
    var focusedId: Id
    var address: string

    function State(): Sidebar
      reads this`tabs, this`lists, this`up, this`next, this`focusedId, this`address
    {
      Sidebar(tabs, lists, up, next, focusedId, address)
    }

    constructor ()
      ensures State() == Initial
    {
      tabs, lists, up, next, focusedId, address := map[], map[TOP := []], map[], 1, 0, "";
    }

    /** `$item.remove()`. */
    method Remove(e: Elem)
      modifies this`lists, this`up
      ensures State() == Detach(old(State()), e)
    {
      if e in up {
        var p := up[e];
        lists := lists[p := Without(ListAt(lists, p), e)];
        up := up - {e};
      }
    }

    /** The first loop's body for one tuple. */
    method Apply(u: Update)
      modifies this`tabs, this`lists, this`up, this`next, this`address
      ensures State() == Applied(old(State()), u)
    {
      if u.closedAt != 0 {
        if u.id in tabs {
          Remove(tabs[u.id].item);
          tabs := tabs - {u.id};
        }
      } else if u.id !in tabs {
        var e := next;
        lists := lists[e := []];
        next := e + 1;
        tabs := tabs[u.id := Tab(u.parent, u.prev, u.next, u.url, false, e, Tooltip(u), Shown(u),
                                 CountText(u.childCount), u.childCount != 0, u.loaded, false, false)];
      } else {
        var tab := tabs[u.id];
        if u.parent != tab.parent || u.prev != tab.prev || u.next != tab.next {
          Remove(tab.item);
        }
        if focusedId == u.id {
          address := tab.url;
        }
        tabs := tabs[u.id := tab.(parent := u.parent, prev := u.prev, next := u.next, tooltip := Tooltip(u),
                                  title := Shown(u), count := CountText(u.childCount),
                                  isParent := u.childCount != 0, loaded := u.loaded)];
      }
    }

    /** `$list.insertBefore($item, $before)`. */
    method InsertBefore(e: Elem, l: Elem, before: Option<Elem>)
      modifies this`lists, this`up
      ensures State() == Inserted(old(State()), e, l, before)
    {
      Remove(e);
      lists := lists[l := InsertAt(ListAt(lists, l), e, before)];
      up := up[e := l];
    }

    /** insertIfNeeded on the record of `id`; false when it throws. */
    method InsertIfNeeded(id: Id, fuel: nat) returns (ok: bool)
      modifies this`lists, this`up
      ensures ok == Cascade(old(State()), id, fuel).Ran?
      ensures State() == Cascade(old(State()), id, fuel).dom
      decreases fuel
    {
      ghost var d := State();
      if id !in tabs {
        assert Cascade(d, id, fuel) == Ran(d);
        return true;
      }
      var tab := tabs[id];
      var nxt := NextItem(State(), tab);
      if Connected(up, tab.item, |up|) {
        assert Cascade(d, id, fuel) == Ran(d);
        return true;
      }
      if nxt.Some? && !Connected(up, nxt.value, |up|) {
        assert Cascade(d, id, fuel) == Ran(d);
        return true;
      }
      if tab.parent != 0 && tab.parent !in tabs {
        assert Cascade(d, id, fuel) == Threw(d);
        return false;
      }
      var l := if tab.parent == 0 then TOP else tabs[tab.parent].item;
      if Within(up, l, tab.item, |up|) || (nxt.Some? && nxt.value !in ListAt(lists, l)) {
        assert Cascade(d, id, fuel) == Threw(d);
        return false;
      }
      InsertBefore(tab.item, l, nxt);
      assert State() == Inserted(d, tab.item, l, nxt);
      if fuel == 0 {
        assert Cascade(d, id, fuel) == Threw(State());
        return false;
      }
      assert Cascade(d, id, fuel) == Cascade(State(), tab.prev, fuel - 1);
      ok := InsertIfNeeded(tab.prev, fuel - 1);
    }

    /** commands.tabs: apply every tuple, then insert what needs inserting; false when it throws. */
    method Tabs(us: seq<Update>) returns (ok: bool)
      modifies this`tabs, this`lists, this`up, this`next, this`address
      ensures ok == Batch(old(State()), us).Ran? && State() == Batch(old(State()), us).dom
    {
      ghost var d0 := State();
      for i := 0 to |us|
        invariant State() == Pass1(d0, us[..i]) && focusedId == d0.focusedId
      {
        assert us[..i + 1][..i] == us[..i];
        Apply(us[i]);
      }
      assert us[..|us|] == us;
      ghost var d1 := State();
      for i := 0 to |us|
        invariant Pass2(d1, us[..i]) == Ran(State())
      {
        assert us[..i + 1][..i] == us[..i];
        ghost var d := State();
        assert Pass2(d1, us[..i + 1]) == Cascade(d, us[i].id, Fuel(d));
        var done := InsertIfNeeded(us[i].id, |tabs|);
        if !done {
          Pass2Sticks(d1, us, i + 1);
          return false;
        }
      }
      assert us[..|us|] == us;
      return true;
    }

    /** expand_tab: count the parent chain in a loop, then set the classes. */
    method ExpandTab(id: Id)
      requires id in tabs && Depth(tabs, id).Some?
      modifies this`tabs
      ensures tabs == old(tabs)[id := Expanded(old(tabs), id)]
    {
      var depth := 0;
      var t := id;
      ghost var f: nat := |tabs|;
      while t in tabs
        invariant Chain(tabs, t, f).Some?
        invariant depth + Chain(tabs, t, f).value == Depth(tabs, id).value
        decreases f
      {
        t := tabs[t].parent;
        f := f - 1;
        depth := depth + 1;
      }
      tabs := tabs[id := tabs[id].(expanded := true, alt := depth % 2 == 0)];
    }

    /** contract_tab. */
    method ContractTab(id: Id)
      requires id in tabs
      modifies this`tabs
      ensures tabs == old(tabs)[id := Contracted(old(tabs), id)]
    {
      tabs := tabs[id := tabs[id].(expanded := false)];
    }

    /** on_expand_clicked on the item of `id`: toggles; false when there is no record to read. */
    method OnExpandClicked(id: Id) returns (ok: bool)
      requires id in tabs && !tabs[id].expanded ==> Depth(tabs, id).Some?
      modifies this`tabs
      ensures ok == (id in old(tabs))
      ensures ok ==> tabs == ExpandToggled(old(tabs), id)
      ensures !ok ==> tabs == old(tabs)
    {
      if id !in tabs {
        return false;
      }
      if tabs[id].expanded {
        ContractTab(id);
      } else {
        ExpandTab(id);
      }
      return true;
    }

    /** expandUp. */
    method ExpandUp(id: Id, ghost fuel: nat)
      requires fuel <= |tabs| && Chain(tabs, id, fuel).Some?
      modifies this`tabs
      ensures tabs == ExpandedUp(old(tabs), id, fuel)
      decreases fuel
    {
      if id !in tabs {
        return;
      }
      ChainMore(tabs, id, fuel, |tabs|);
      ghost var t0 := tabs;
      var parent := tabs[id].parent;
      ExpandTab(id);
      assert SameShape(tabs, t0);
      ChainShape(tabs, t0, parent, fuel - 1);
      ExpandUp(parent, fuel - 1);
    }

    /** commands.focus. */
    method Focus(id: Id)
      requires Depth(tabs, id).Some?
      modifies this`tabs, this`focusedId, this`address
      ensures State() == Focused(old(State()), id)
    {
      ghost var d0 := State();
      if focusedId in tabs {
        tabs := tabs[focusedId := tabs[focusedId].(focused := false)];
      }
      focusedId := id;
      assert SameShape(tabs, d0.tabs);
      ChainShape(tabs, d0.tabs, id, |d0.tabs|);
      if id in tabs {
        tabs := tabs[id := tabs[id].(focused := true)];
        address := tabs[id].url;
        assert SameShape(tabs, d0.tabs);
        ChainShape(tabs, d0.tabs, id, |d0.tabs|);
        ExpandUp(id, |tabs|);
      }
    }
  }
}
