/**
 * The win32app sidebar shell: the script that mirrors the app's tab tree
 * in the DOM. It keeps one record per tab id (its parent, its position key
 * and its element) and the element tree of nested lists; the app sends it
 * whole views and batches of changed tabs, and it posts back what the user
 * asks for by clicking and dragging.
 *
 * The DOM is modelled as elements numbered from 1 (0 is the top list),
 * each item element owning a child list under its own number. Elements are
 * never destroyed: a removed element just stops being listed anywhere.
 */
module WinShell {
  import opened Wrappers
  import JsString
  import TabTree
  import TabTable

  type Id = nat
  type Elem = nat

  /** The sidebar's top list. */
  const TOP: Elem := 0

  /** Flag masks, as the app's tab flag word carries them. */
  const FOCUSED: nat := 1
  const VISITED: nat := 2
  const LOADING: nat := 4
  const LOADED: nat := 8
  const TRASHED: nat := 16
  const EXPANDABLE: nat := 32
  const EXPANDED: nat := 64

  /** `flags & mask` is truthy, for a one-bit mask. */
  function Has(flags: nat, mask: nat): bool
    requires mask > 0
  {
    (flags / mask) % 2 == 1
  }

  /** Halving once more is dividing by the next power of two. */
  lemma Halvings(x: nat)
    ensures x / 4 == x / 2 / 2 && x / 8 == x / 4 / 2 && x / 16 == x / 8 / 2
    ensures x / 32 == x / 16 / 2 && x / 64 == x / 32 / 2
  {
  }

  /** The shell's masks test the same bits the app sets in a tab's flag word. */
  lemma MasksMatchApp(f: TabTree.FlagSet)
    ensures var x := TabTree.Bits(f);
      (Has(x, FOCUSED) <==> f.focused) && (Has(x, VISITED) <==> f.visited) &&
      (Has(x, LOADING) <==> f.loading) && (Has(x, LOADED) <==> f.loaded) &&
      (Has(x, TRASHED) <==> f.trashed) && (Has(x, EXPANDABLE) <==> f.expandable) &&
      (Has(x, EXPANDED) <==> f.expanded)
  {
    var x := TabTree.Bits(f);
    TabTree.DecodeBits(f);
    Halvings(x);
  }

  // ------------------------------------------------------------ state

  /**
   * One tab tuple as the shell reads it: id, parent (None for a top-level
   * tab, which the shell tests as `parent == null`), position key, URL,
   * favicon URL, title, flags. The app writes the parent as an edge id,
   * 0 at top level (see ParentCell).
   */
  datatype TabData = TabData(id: Id, parent: Option<Id>, position: string, url: string, faviconUrl: string, title: string, flags: nat)

  /** An entry of an update batch: a full tuple, or the bare id of a tab to remove. */
  datatype Entry = Full(tab: TabData) | Removal(id: Id)

  /** What an item element shows: its id attribute, its classes, title text, tooltip and favicon source. */
  datatype Element = Element(id: Id, classes: set<string>, title: string, tooltip: string, favicon: Option<string>)

  /** The script's own record of a tab; parent and position are null until it is placed. */
  datatype Item = Item(parent: Option<Id>, position: Option<string>, elem: Elem)

  /** The last arguments the toolbar was updated with. */
  datatype Toolbar = Toolbar(url: string, loading: bool)

  /**
   * The records by id, the children of every list (TOP and each item
   * element's own list), every element made so far, the next element
   * number, and the toolbar.
   */
  datatype Sidebar = Sidebar(
    items: map<Id, Item>,
    lists: map<Elem, seq<Elem>>,
    elems: map<Elem, Element>,
    next: Elem,
    toolbar: Option<Toolbar>)

  /** The state a step leaves, and whether it ended by throwing. */
  datatype Run = Ran(dom: Sidebar) | Threw(dom: Sidebar)

  const Initial := Sidebar(map[], map[TOP := []], map[], 1, None)

  function ListAt(lists: map<Elem, seq<Elem>>, l: Elem): seq<Elem> {
    if l in lists then lists[l] else []
  }

  function ElemAt(elems: map<Elem, Element>, e: Elem): Element {
    if e in elems then elems[e] else Element(0, {}, "", "", None)
  }

  /** s with every occurrence of e taken out. */
  function Without(s: seq<Elem>, e: Elem): seq<Elem> {
    if s == [] then [] else (if s[0] == e then [] else [s[0]]) + Without(s[1..], e)
  }

  /** `$item.remove()`: e leaves whichever list holds it. */
  function Detach(lists: map<Elem, seq<Elem>>, e: Elem): map<Elem, seq<Elem>> {
    map l | l in lists :: Without(lists[l], e)
  }

  /** An element listed in a live list is the current element of the record its id names. */
  predicate Owned(d: Sidebar, x: Elem) {
    x in d.elems && d.elems[x].id in d.items && d.items[d.elems[x].id].elem == x
  }

  predicate ListOwned(d: Sidebar, s: seq<Elem>) {
    forall x :: x in s ==> Owned(d, x)
  }

  /**
   * What the shell keeps true: element numbers below next; the top list
   * and each record's own list hold only owned elements; each record's
   * element carries its id; and no element ever has the class "closed".
   */
  predicate Valid(d: Sidebar) {
    0 < d.next && TOP in d.lists &&
    (forall k :: k in d.lists ==> k < d.next && (forall x :: x in d.lists[k] ==> x < d.next)) &&
    (forall k :: k in d.elems ==> k < d.next) &&
    ListOwned(d, d.lists[TOP]) &&
    (forall id :: id in d.items ==>
      var e := d.items[id].elem;
      0 < e && e in d.elems && d.elems[e].id == id && e in d.lists && ListOwned(d, d.lists[e])) &&
    (forall k :: k in d.elems ==> "closed" !in d.elems[k].classes)
  }

  // ------------------------------------------------------------ create, update, remove

  function Toggle(cs: set<string>, name: string, on: bool): set<string> {
    if on then cs + {name} else cs - {name}
  }

  /** The classes create_item gives: "item" and one per set flag, but never "loading". */
  function CreatedClasses(flags: nat): set<string> {
    {"item"} +
    (if Has(flags, FOCUSED) then {"focused"} else {}) +
    (if Has(flags, VISITED) then {"visited"} else {}) +
    (if Has(flags, LOADED) then {"loaded"} else {}) +
    (if Has(flags, TRASHED) then {"trashed"} else {}) +
    (if Has(flags, EXPANDABLE) then {"expandable"} else {}) +
    (if Has(flags, EXPANDED) then {"expanded"} else {})
  }

  /** update_item's changes to an existing element: seven class toggles, the texts and the favicon. */
  function Restyled(el: Element, t: TabData): Element {
    var cs := Toggle(Toggle(Toggle(Toggle(Toggle(Toggle(Toggle(el.classes,
      "focused", Has(t.flags, FOCUSED)),
      "visited", Has(t.flags, VISITED)),
      "loading", Has(t.flags, LOADING)),
      "loaded", Has(t.flags, LOADED)),
      "trashed", Has(t.flags, TRASHED)),
      "expandable", Has(t.flags, EXPANDABLE)),
      "expanded", Has(t.flags, EXPANDED));
    el.(classes := cs, title := t.title, tooltip := t.title + "\n" + t.url,
        favicon := if t.faviconUrl != "" then Some(t.faviconUrl) else None)
  }

  /** A focused tab's URL and loading state go to the toolbar. */
  function ToolbarAfter(tb: Option<Toolbar>, t: TabData): Option<Toolbar> {
    if Has(t.flags, FOCUSED) then Some(Toolbar(t.url, Has(t.flags, LOADING))) else tb
  }

  /** create_item: a fresh element with an empty list, and an unplaced record. */
  function Created(d: Sidebar, t: TabData): Sidebar {
    var e := d.next;
    d.(items := d.items[t.id := Item(None, None, e)],
       lists := d.lists[e := []],
       elems := d.elems[e := Element(t.id, CreatedClasses(t.flags), t.title, t.title + "\n" + t.url, Some(t.faviconUrl))],
       next := e + 1,
       toolbar := ToolbarAfter(d.toolbar, t))
  }

  /** Whether a tuple gives a tab a new parent or position. */
  predicate Moves(it: Item, t: TabData) {
    t.parent != it.parent || Some(t.position) != it.position
  }

  /**
   * update_item as intended: an unknown id is created; a known one is
   * restyled, and detached when its parent or position changed so that
   * placing it again moves it.
   */
  function Updated(d: Sidebar, t: TabData): Sidebar {
    if t.id !in d.items then Created(d, t)
    else
      var it := d.items[t.id];
      d.(elems := d.elems[it.elem := Restyled(ElemAt(d.elems, it.elem), t)],
         toolbar := ToolbarAfter(d.toolbar, t),
         lists := if Moves(it, t) then Detach(d.lists, it.elem) else d.lists)
  }

  /**
   * update_item as written: the detach names `$item`, which no enclosing
   * scope declares, so reading it throws a ReferenceError for a moved tab
   * after it has been restyled.
   */
  function UpdatedAsWritten(d: Sidebar, t: TabData): Run {
    if t.id !in d.items then Ran(Created(d, t))
    else
      var it := d.items[t.id];
      var d1 := d.(elems := d.elems[it.elem := Restyled(ElemAt(d.elems, it.elem), t)],
                   toolbar := ToolbarAfter(d.toolbar, t));
      if Moves(it, t) then Threw(d1) else Ran(d1)
  }

  /** remove_item: an unknown id throws; a known one loses its record and its element leaves its list. */
  function Removed(d: Sidebar, id: Id): Run {
    if id !in d.items then Threw(d)
    else Ran(d.(items := d.items - {id}, lists := Detach(d.lists, d.items[id].elem)))
  }

  // ------------------------------------------------------------ placing

  /** The position key of the record an element's id names, if there is one. */
  function Key(d: Sidebar, x: Elem): Option<string> {
    if x in d.elems && d.elems[x].id in d.items then d.items[d.elems[x].id].position else None
  }

  /** `pos < key` in JavaScript, where a null key compares as not greater. */
  predicate Above(pos: string, key: Option<string>) {
    key.Some? && JsString.StrLess(pos, key.value)
  }

  /**
   * place_item's scan of the siblings: the first one whose key is strictly
   * greater than pos, or None to append; a sibling without a record throws
   * (reported as Err with that sibling). A null key compares as not greater.
   */
  function Scan(d: Sidebar, sibs: seq<Elem>, pos: string): Result<Option<Elem>, Elem> {
    if sibs == [] then Ok(None)
    else if !(sibs[0] in d.elems && d.elems[sibs[0]].id in d.items) then Err(sibs[0])
    else
      if Above(pos, d.items[d.elems[sibs[0]].id].position) then Ok(Some(sibs[0]))
      else Scan(d, sibs[1..], pos)
  }

  /** Whether element `to` is `from` or lies in its subtree, searching fuel levels deep. */
  function Reaches(lists: map<Elem, seq<Elem>>, from: Elem, to: Elem, fuel: nat): bool
    decreases fuel
  {
    from == to || (fuel > 0 && exists c :: c in ListAt(lists, from) && Reaches(lists, c, to, fuel - 1))
  }

  function IndexOf(s: seq<Elem>, x: Elem): (i: nat)
    requires x in s
    ensures i < |s| && s[i] == x && x !in s[..i]
  {
    if s[0] == x then 0 else 1 + IndexOf(s[1..], x)
  }

  /** insertBefore(e, before), or append when there is no such sibling. */
  function InsertBefore(s: seq<Elem>, e: Elem, before: Option<Elem>): seq<Elem> {
    if before.Some? && before.value in s then
      var i := IndexOf(s, before.value);
      s[..i] + [e] + s[i..]
    else s + [e]
  }

  /** The list a tuple is placed into: the top list for a null parent, else the parent record's list. */
  function TargetOf(d: Sidebar, t: TabData): Elem
    requires t.parent.Some? ==> t.parent.value in d.items
  {
    if t.parent.None? then TOP else d.items[t.parent.value].elem
  }

  /** place_item's first step: the record takes the tuple's parent and position. */
  function Stored(d: Sidebar, t: TabData): Sidebar
    requires t.id in d.items
  {
    d.(items := d.items[t.id := Item(t.parent, Some(t.position), d.items[t.id].elem)])
  }

  /**
   * place_item: store parent and position in the record, then insert its
   * element into the target list before the first sibling with a greater
   * key. It throws when the record or the parent record is missing, when a
   * sibling has no record, or when the target list lies inside the
   * element itself (a DOM hierarchy error).
   */
  function Placed(d: Sidebar, t: TabData): Run {
    if t.id !in d.items then Threw(d)
    else
      var e := d.items[t.id].elem;
      var d1 := Stored(d, t);
      if t.parent.Some? && t.parent.value !in d1.items then Threw(d1)
      else
        var target := TargetOf(d1, t);
        match Scan(d1, ListAt(d1.lists, target), t.position)
        case Err(_) => Threw(d1)
        case Ok(before) =>
          if Reaches(d1.lists, e, target, |d1.lists|) then Threw(d1)
          else
            var lists := Detach(d1.lists, e);
            Ran(d1.(lists := lists[target := InsertBefore(ListAt(lists, target), e, before)]))
  }

  // ------------------------------------------------------------ batches

  function Step1(d: Sidebar, x: Entry): Run {
    match x
    case Full(t) => Ran(Updated(d, t))
    case Removal(id) => Removed(d, id)
  }

  function Step2(d: Sidebar, x: Entry): Run {
    match x
    case Full(t) => Placed(d, t)
    case Removal(_) => Ran(d)
  }

  /** The first pass over a batch: every update and removal, stopping at a throw. */
  function Pass1(d: Sidebar, es: seq<Entry>): Run
    decreases |es|
  {
    if es == [] then Ran(d)
    else
      var r := Pass1(d, es[..|es| - 1]);
      if r.Threw? then r else Step1(r.dom, es[|es| - 1])
  }

  /** The second pass: every full tuple is placed, stopping at a throw. */
  function Pass2(d: Sidebar, es: seq<Entry>): Run
    decreases |es|
  {
    if es == [] then Ran(d)
    else
      var r := Pass2(d, es[..|es| - 1]);
      if r.Threw? then r else Step2(r.dom, es[|es| - 1])
  }

  /** commands.update: all updates and removals first, then all placements. */
  function Batch(d: Sidebar, es: seq<Entry>): Run {
    var r := Pass1(d, es);
    if r.Threw? then r else Pass2(r.dom, es)
  }

  function AsEntries(ts: seq<TabData>): seq<Entry> {
    seq(|ts|, i requires 0 <= i < |ts| => Full(ts[i]))
  }

  /** commands.view empties the top list and forgets every record. */
  function Cleared(d: Sidebar): Sidebar {
    d.(items := map[], lists := d.lists[TOP := []])
  }

  /** commands.view: a cleared sidebar, then the tuples as one batch. */
  function Viewed(d: Sidebar, ts: seq<TabData>): Run {
    Batch(Cleared(d), AsEntries(ts))
  }

  // ------------------------------------------------------------ properties: create, update, remove

  lemma {:induction false} WithoutSpec(s: seq<Elem>, e: Elem)
    ensures forall x :: x in Without(s, e) <==> x in s && x != e
    ensures e !in s ==> Without(s, e) == s
  {
    if s != [] {
      WithoutSpec(s[1..], e);
      assert s == [s[0]] + s[1..];
    }
  }

  /** Detaching e takes it out of every list and keeps everything else listed where it was. */
  lemma DetachSpec(lists: map<Elem, seq<Elem>>, e: Elem)
    ensures Detach(lists, e).Keys == lists.Keys
    ensures forall l, x :: l in lists ==> (x in Detach(lists, e)[l] <==> x in lists[l] && x != e)
  {
    forall l | l in lists {
      WithoutSpec(lists[l], e);
    }
  }

  /**
   * create_item: the new record has null parent and position, so it is in
   * no list until placed; its element is fresh, carries the id and the
   * classes the flags give; every other record and list is untouched.
   */
  lemma CreatedShape(d: Sidebar, t: TabData)
    requires Valid(d) && t.id !in d.items
    ensures var r := Created(d, t); var e := d.next;
      r.items[t.id] == Item(None, None, e) && e !in d.elems &&
      r.elems[e].id == t.id && r.elems[e].classes == CreatedClasses(t.flags) &&
      (forall l :: l in r.lists ==> e !in r.lists[l]) &&
      (forall id :: id in d.items ==> id in r.items && r.items[id] == d.items[id]) &&
      (forall l :: l in d.lists ==> l in r.lists && r.lists[l] == d.lists[l])
  {
  }

  /** A created element has "item" and the class of each set flag except "loading", which it never gets. */
  lemma CreatedClassesFollowFlags(flags: nat)
    ensures var cs := CreatedClasses(flags);
      "item" in cs && "loading" !in cs && "closed" !in cs &&
      ("focused" in cs <==> Has(flags, FOCUSED)) &&
      ("visited" in cs <==> Has(flags, VISITED)) &&
      ("loaded" in cs <==> Has(flags, LOADED)) &&
      ("trashed" in cs <==> Has(flags, TRASHED)) &&
      ("expandable" in cs <==> Has(flags, EXPANDABLE)) &&
      ("expanded" in cs <==> Has(flags, EXPANDED))
  {
  }

  /** The class names update_item toggles. */
  const FlagClasses: set<string> := {"focused", "visited", "loading", "loaded", "trashed", "expandable", "expanded"}

  /** update_item's toggles: each flag class follows its flag, every other class is kept. */
  lemma RestyledClasses(el: Element, t: TabData)
    ensures var cs := Restyled(el, t).classes;
      ("focused" in cs <==> Has(t.flags, FOCUSED)) &&
      ("visited" in cs <==> Has(t.flags, VISITED)) &&
      ("loading" in cs <==> Has(t.flags, LOADING)) &&
      ("loaded" in cs <==> Has(t.flags, LOADED)) &&
      ("trashed" in cs <==> Has(t.flags, TRASHED)) &&
      ("expandable" in cs <==> Has(t.flags, EXPANDABLE)) &&
      ("expanded" in cs <==> Has(t.flags, EXPANDED)) &&
      (forall c :: c !in FlagClasses ==> (c in cs <==> c in el.classes))
    ensures Restyled(el, t).id == el.id
  {
  }

  /**
   * update_item on a known id: the records stay as they are (parent and
   * position change only when placed); its element's seven flag classes
   * follow the flags, other classes stay; the texts follow the tuple; and
   * the element leaves every list exactly when parent or position changed.
   */
  lemma UpdatedKnown(d: Sidebar, t: TabData)
    requires Valid(d) && t.id in d.items
    ensures var r := Updated(d, t); var e := d.items[t.id].elem;
      r.items == d.items && r.next == d.next &&
      (forall k :: k in d.elems && k != e ==> k in r.elems && r.elems[k] == d.elems[k]) &&
      r.elems[e].id == t.id && r.elems[e].title == t.title &&
      (r.elems[e].favicon.Some? <==> t.faviconUrl != "") &&
      (forall c :: c !in FlagClasses ==> (c in r.elems[e].classes <==> c in d.elems[e].classes))
    ensures var cs := Updated(d, t).elems[d.items[t.id].elem].classes;
      ("focused" in cs <==> Has(t.flags, FOCUSED)) &&
      ("visited" in cs <==> Has(t.flags, VISITED)) &&
      ("loading" in cs <==> Has(t.flags, LOADING)) &&
      ("loaded" in cs <==> Has(t.flags, LOADED)) &&
      ("trashed" in cs <==> Has(t.flags, TRASHED)) &&
      ("expandable" in cs <==> Has(t.flags, EXPANDABLE)) &&
      ("expanded" in cs <==> Has(t.flags, EXPANDED))
    ensures var r := Updated(d, t); var e := d.items[t.id].elem;
      r.lists.Keys == d.lists.Keys &&
      (!Moves(d.items[t.id], t) ==> r.lists == d.lists) &&
      (Moves(d.items[t.id], t) ==>
        forall l, x :: l in d.lists ==> (x in r.lists[l] <==> x in d.lists[l] && x != e))
  {
    DetachSpec(d.lists, d.items[t.id].elem);
    RestyledClasses(ElemAt(d.elems, d.items[t.id].elem), t);
  }

  /**
   * remove_item: it throws exactly for an unknown id; otherwise only that
   * record goes (the records of its descendants stay) and its element
   * leaves every list.
   */
  lemma RemovedShape(d: Sidebar, id: Id)
    ensures Removed(d, id).Ran? <==> id in d.items
    ensures id !in d.items ==> Removed(d, id).dom == d
    ensures id in d.items ==>
      var r := Removed(d, id).dom; var e := d.items[id].elem;
      r.items.Keys == d.items.Keys - {id} &&
      (forall j :: j in r.items ==> r.items[j] == d.items[j]) &&
      r.elems == d.elems && r.lists.Keys == d.lists.Keys &&
      (forall l, x :: l in d.lists ==> (x in r.lists[l] <==> x in d.lists[l] && x != e))
  {
    if id in d.items {
      DetachSpec(d.lists, d.items[id].elem);
    }
  }

  lemma CreatedValid(d: Sidebar, t: TabData)
    requires Valid(d) && t.id !in d.items
    ensures Valid(Created(d, t))
  {
    var r := Created(d, t);
    CreatedClassesFollowFlags(t.flags);
    assert forall x :: Owned(d, x) ==> Owned(r, x);
  }

  /** A step that keeps the records, may only unlist elements and restyles without "closed" keeps the invariant. */
  lemma ValidKept(d: Sidebar, r: Sidebar)
    requires Valid(d)
    requires r.items == d.items && r.next == d.next && r.lists.Keys == d.lists.Keys && r.elems.Keys == d.elems.Keys
    requires forall l, x :: l in d.lists && x in r.lists[l] ==> x in d.lists[l]
    requires forall k :: k in d.elems ==> r.elems[k].id == d.elems[k].id && "closed" !in r.elems[k].classes
    ensures Valid(r)
  {
    assert forall x :: Owned(d, x) ==> Owned(r, x);
  }

  lemma RestyledValid(d: Sidebar, t: TabData)
    requires Valid(d) && t.id in d.items
    ensures Valid(Updated(d, t))
  {
    var e := d.items[t.id].elem;
    DetachSpec(d.lists, e);
    RestyledClasses(ElemAt(d.elems, e), t);
    ValidKept(d, Updated(d, t));
  }

  /** update_item, as intended, keeps the shell's invariant. */
  lemma UpdatedValid(d: Sidebar, t: TabData)
    requires Valid(d)
    ensures Valid(Updated(d, t))
  {
    if t.id !in d.items {
      CreatedValid(d, t);
    } else {
      RestyledValid(d, t);
    }
  }

  /** remove_item keeps the shell's invariant. */
  lemma RemovedValid(d: Sidebar, id: Id)
    requires Valid(d)
    ensures Valid(Removed(d, id).dom)
  {
    if id in d.items {
      var r := Removed(d, id).dom;
      var e := d.items[id].elem;
      DetachSpec(d.lists, e);
      assert forall x :: Owned(d, x) && x != e ==> Owned(r, x);
    }
  }

  // ------------------------------------------------------------ properties: placing

  /**
   * place_item throws when the tab has no record, when its parent has no
   * record, and when it is placed under itself.
   */
  lemma PlacedThrows(d: Sidebar, t: TabData)
    ensures t.id !in d.items ==> Placed(d, t).Threw?
    ensures t.parent.Some? && t.parent.value !in d.items ==> Placed(d, t).Threw?
    ensures t.parent == Some(t.id) ==> Placed(d, t).Threw?
  {
  }

  /** Keys in order: present, and never a later one below an earlier one. */
  predicate Le(a: Option<string>, b: Option<string>) {
    a.Some? && b.Some? && !JsString.StrLess(b.value, a.value)
  }

  predicate SortedKeys(d: Sidebar, s: seq<Elem>) {
    (forall x :: x in s ==> Key(d, x).Some?) &&
    (forall i, j :: 0 <= i < j < |s| ==> Le(Key(d, s[i]), Key(d, s[j])))
  }

  /** An element whose own key is pos is never the sibling the scan stops at. */
  lemma {:induction false} ScanSkips(d: Sidebar, s: seq<Elem>, e: Elem, pos: string)
    requires Key(d, e) == Some(pos)
    ensures Scan(d, s, pos) == Scan(d, Without(s, e), pos)
  {
    if s != [] {
      ScanSkips(d, s[1..], e, pos);
      if s[0] == e {
        JsString.StrLessIrreflexive(pos);
        assert Without(s, e) == Without(s[1..], e);
      } else {
        assert Without(s, e) == [s[0]] + Without(s[1..], e);
        assert Without(s, e)[1..] == Without(s[1..], e);
      }
    }
  }

  /**
   * Over siblings that all have records, the scan stops at the first one
   * above pos and only there, or reports that none is above.
   */
  lemma {:induction false} ScanStops(d: Sidebar, w: seq<Elem>, pos: string)
    requires forall x :: x in w ==> Key(d, x).Some?
    ensures Scan(d, w, pos).Ok?
    ensures Scan(d, w, pos).value.None? ==> forall j :: 0 <= j < |w| ==> !Above(pos, Key(d, w[j]))
    ensures Scan(d, w, pos).value.Some? ==>
      var b := Scan(d, w, pos).value.value;
      b in w && Above(pos, Key(d, b)) && forall j :: 0 <= j < IndexOf(w, b) ==> !Above(pos, Key(d, w[j]))
  {
    if w != [] {
      assert w[0] in w;
      if !Above(pos, Key(d, w[0])) {
        ScanStops(d, w[1..], pos);
        assert forall j :: 1 <= j < |w| ==> w[j] == w[1..][j - 1];
        var r := Scan(d, w[1..], pos);
        if r.value.Some? && r.value.value != w[0] {
          assert IndexOf(w, r.value.value) == 1 + IndexOf(w[1..], r.value.value);
        }
      }
    }
  }

  /** Inserting e between the keys not above its own and those above it keeps a sorted list sorted. */
  lemma InsertSorted(d: Sidebar, w: seq<Elem>, e: Elem, k: nat, pos: string)
    requires SortedKeys(d, w) && Key(d, e) == Some(pos) && k <= |w|
    requires forall j :: 0 <= j < k ==> !Above(pos, Key(d, w[j]))
    requires forall j :: k <= j < |w| ==> Above(pos, Key(d, w[j]))
    ensures SortedKeys(d, w[..k] + [e] + w[k..])
  {
    var s := w[..k] + [e] + w[k..];
    assert forall j :: 0 <= j < |s| && j != k ==> s[j] == (if j < k then w[j] else w[j - 1]);
    forall i, j | 0 <= i < j < |s|
      ensures Le(Key(d, s[i]), Key(d, s[j]))
    {
      assert w[..k] + [e] + w[k..] == s;
      if j == k {
        assert s[i] == w[i] && w[i] in w;
        JsString.StrLessTotal(pos, Key(d, w[i]).value);
      } else if i == k {
        assert s[j] == w[j - 1];
        JsString.StrLessAsymmetric(pos, Key(d, w[j - 1]).value);
      }
    }
  }

  /** In a sorted list, everything from the first key above pos on is above pos. */
  lemma SuffixAbove(d: Sidebar, w: seq<Elem>, k: nat, pos: string)
    requires SortedKeys(d, w) && k < |w| && Above(pos, Key(d, w[k]))
    ensures forall j :: k <= j < |w| ==> Above(pos, Key(d, w[j]))
  {
    forall j | k < j < |w|
      ensures Above(pos, Key(d, w[j]))
    {
      assert Le(Key(d, w[k]), Key(d, w[j]));
      JsString.StrLessTotal(Key(d, w[k]).value, Key(d, w[j]).value);
      if Key(d, w[k]) != Key(d, w[j]) {
        JsString.StrLessTransitive(pos, Key(d, w[k]).value, Key(d, w[j]).value);
      }
    }
  }

  lemma InsertBeforeHas(s: seq<Elem>, e: Elem, before: Option<Elem>)
    ensures forall x :: x in InsertBefore(s, e, before) <==> x in s || x == e
  {
    if before.Some? && before.value in s {
      var i := IndexOf(s, before.value);
      assert s == s[..i] + s[i..];
    }
  }

  /** What a placement that does not throw leaves, step by step. */
  lemma PlacedList(d: Sidebar, t: TabData)
    requires Valid(d) && Placed(d, t).Ran?
    ensures t.id in d.items && (t.parent.Some? ==> t.parent.value in d.items && t.parent.value != t.id)
    ensures var r := Placed(d, t).dom; var e := d.items[t.id].elem; var target := TargetOf(d, t);
      var list := ListAt(d.lists, target);
      r.items == Stored(d, t).items && r.elems == d.elems && r.next == d.next && target in d.lists &&
      r.lists == Detach(d.lists, e)[target := InsertBefore(Without(list, e), e, Scan(Stored(d, t), list, t.position).value)]
  {
    var e := d.items[t.id].elem;
    var target := TargetOf(Stored(d, t), t);
    assert target == TargetOf(d, t);
    DetachSpec(d.lists, e);
  }

  /**
   * A placed tab: its record now holds the tuple's parent and position; the
   * target is the top list exactly when the parent is null; its element is
   * in the target list and in no other, and every other element stays
   * listed where it was.
   */
  lemma PlacedWhere(d: Sidebar, t: TabData)
    requires Valid(d) && Placed(d, t).Ran?
    ensures t.id in d.items && (t.parent.Some? ==> t.parent.value in d.items && t.parent.value != t.id)
    ensures var r := Placed(d, t).dom; var e := d.items[t.id].elem; var target := TargetOf(d, t);
      r.items == d.items[t.id := Item(t.parent, Some(t.position), e)] &&
      r.elems == d.elems && r.next == d.next &&
      (target == TOP <==> t.parent.None?) &&
      r.lists.Keys == d.lists.Keys &&
      (forall l, x :: l in d.lists ==> (x in r.lists[l] <==> (x in d.lists[l] && x != e) || (l == target && x == e)))
  {
    PlacedList(d, t);
    var e := d.items[t.id].elem;
    var target := TargetOf(d, t);
    var list := ListAt(d.lists, target);
    DetachSpec(d.lists, e);
    WithoutSpec(list, e);
    InsertBeforeHas(Without(list, e), e, Scan(Stored(d, t), list, t.position).value);
  }

  /**
   * The parent cell of a tuple, read the way the shell means it: the app
   * writes a top-level tab's parent as edge id 0, which stands for no
   * parent.
   */
  function ParentCell(p: Id): (r: Option<Id>)
    ensures r.None? <==> p == 0
    ensures r.Some? ==> r.value == p
  {
    if p == 0 then None else Some(p)
  }

  /**
   * As written, place_item tests `parent == null`, which the number 0 the
   * app sends for a top-level tab fails; it then reads the record of tab
   * 0, which no tuple creates, and throws.
   */
  lemma TopLevelFromAppThrows(d: Sidebar, t: TabData)
    requires 0 !in d.items && t.parent == Some(0)
    ensures Placed(d, t).Threw?
  {
    PlacedThrows(d, t);
  }

  /** With the parent cell read through ParentCell, a top-level tab from the app lands in the top list. */
  lemma TopLevelFromAppPlaced(d: Sidebar, t: TabData)
    requires Valid(d) && t.parent == ParentCell(0) && Placed(d, t).Ran?
    ensures t.id in d.items && TargetOf(d, t) == TOP
    ensures d.items[t.id].elem in Placed(d, t).dom.lists[TOP]
  {
    PlacedWhere(d, t);
  }

  /** Apart from the placed tab's own element, siblings read the same keys before and after its record is stored. */
  lemma StoredKeys(d: Sidebar, t: TabData)
    requires Valid(d) && t.id in d.items && (t.parent.Some? ==> t.parent.value in d.items)
    ensures var e := d.items[t.id].elem;
      Key(Stored(d, t), e) == Some(t.position) &&
      forall x :: x in ListAt(d.lists, TargetOf(d, t)) && x != e ==> Key(Stored(d, t), x) == Key(d, x)
  {
    assert ListOwned(d, ListAt(d.lists, TargetOf(d, t)));
  }

  lemma InsertMultiset(w: seq<Elem>, e: Elem, k: nat)
    requires k <= |w|
    ensures multiset(w[..k] + [e] + w[k..]) == multiset(w) + multiset{e}
  {
    assert w[..k] + w[k..] == w;
  }

  /**
   * Inserting e where the scan stops, into a sorted list of siblings that
   * all have records: the result is sorted, is the siblings plus e, and
   * splits at e into keys not above e's and keys above it.
   */
  lemma InsertAtScan(d1: Sidebar, r: Sidebar, w: seq<Elem>, e: Elem, pos: string)
    requires r.items == d1.items && r.elems == d1.elems
    requires SortedKeys(d1, w) && Key(d1, e) == Some(pos)
    ensures Scan(d1, w, pos).Ok?
    ensures var s := InsertBefore(w, e, Scan(d1, w, pos).value);
      SortedKeys(r, s) && multiset(s) == multiset(w) + multiset{e} &&
      exists k :: 0 <= k <= |w| && s == w[..k] + [e] + w[k..] &&
        (forall j :: 0 <= j < k ==> !Above(pos, Key(r, w[j]))) &&
        (forall j :: k <= j < |w| ==> Above(pos, Key(r, w[j])))
  {
    ScanStops(d1, w, pos);
    var b := Scan(d1, w, pos).value;
    var k := if b.Some? then IndexOf(w, b.value) else |w|;
    var s := w[..k] + [e] + w[k..];
    assert InsertBefore(w, e, b) == s;
    if b.Some? {
      SuffixAbove(d1, w, k, pos);
    }
    InsertSorted(d1, w, e, k, pos);
    assert forall x :: Key(r, x) == Key(d1, x);
    assert forall j :: 0 <= j < k ==> !Above(pos, Key(r, w[j]));
    assert forall j :: k <= j < |w| ==> Above(pos, Key(r, w[j]));
    InsertMultiset(w, e, k);
  }

  /**
   * place_item into a sorted list: the tab goes after every sibling whose
   * key is not above its own (so after equal keys) and before the rest,
   * and the list stays sorted, holding the same siblings plus the tab.
   */
  lemma PlacedSorted(d: Sidebar, t: TabData)
    requires Valid(d) && Placed(d, t).Ran?
    requires t.id in d.items && (t.parent.Some? ==> t.parent.value in d.items)
    requires SortedKeys(d, Without(ListAt(d.lists, TargetOf(d, t)), d.items[t.id].elem))
    ensures var r := Placed(d, t).dom; var e := d.items[t.id].elem;
      var w := Without(ListAt(d.lists, TargetOf(d, t)), e);
      var s := r.lists[TargetOf(d, t)];
      SortedKeys(r, s) && multiset(s) == multiset(w) + multiset{e} &&
      exists k :: 0 <= k <= |w| && s == w[..k] + [e] + w[k..] &&
        (forall j :: 0 <= j < k ==> !Above(t.position, Key(r, w[j]))) &&
        (forall j :: k <= j < |w| ==> Above(t.position, Key(r, w[j])))
  {
    PlacedList(d, t);
    var e := d.items[t.id].elem;
    var d1 := Stored(d, t);
    var list := ListAt(d.lists, TargetOf(d, t));
    var w := Without(list, e);
    WithoutSpec(list, e);
    StoredKeys(d, t);
    assert SortedKeys(d1, w);
    ScanSkips(d1, list, e, t.position);
    InsertAtScan(d1, Placed(d, t).dom, w, e, t.position);
  }

  /** A step that keeps each record's element and lists only what was listed before, plus an owned e, keeps the invariant. */
  lemma ValidMoved(d: Sidebar, r: Sidebar, e: Elem)
    requires Valid(d)
    requires r.next == d.next && r.elems == d.elems && r.items.Keys == d.items.Keys && r.lists.Keys == d.lists.Keys
    requires forall id :: id in d.items ==> r.items[id].elem == d.items[id].elem
    requires forall l, x :: l in d.lists && x in r.lists[l] ==> x in d.lists[l] || x == e
    requires Owned(r, e)
    ensures Valid(r)
  {
    assert forall x :: Owned(d, x) ==> Owned(r, x);
  }

  /** place_item keeps the shell's invariant, whether it ends normally or throws. */
  lemma PlacedValid(d: Sidebar, t: TabData)
    requires Valid(d)
    ensures Valid(Placed(d, t).dom)
  {
    if t.id in d.items {
      var e := d.items[t.id].elem;
      if Placed(d, t).Ran? {
        PlacedWhere(d, t);
        ValidMoved(d, Placed(d, t).dom, e);
      } else {
        ValidMoved(d, Stored(d, t), e);
      }
    }
  }

  // ------------------------------------------------------------ properties: batches

  /** Once a pass has thrown, the entries after it change nothing. */
  lemma {:induction false} Pass1Sticks(d: Sidebar, es: seq<Entry>, i: nat)
    requires i <= |es| && Pass1(d, es[..i]).Threw?
    ensures Pass1(d, es) == Pass1(d, es[..i])
    decreases |es|
  {
    if i < |es| {
      assert es[..|es| - 1][..i] == es[..i];
      Pass1Sticks(d, es[..|es| - 1], i);
    } else {
      assert es[..i] == es;
    }
  }

  lemma {:induction false} Pass2Sticks(d: Sidebar, es: seq<Entry>, i: nat)
    requires i <= |es| && Pass2(d, es[..i]).Threw?
    ensures Pass2(d, es) == Pass2(d, es[..i])
    decreases |es|
  {
    if i < |es| {
      assert es[..|es| - 1][..i] == es[..i];
      Pass2Sticks(d, es[..|es| - 1], i);
    } else {
      assert es[..i] == es;
    }
  }

  lemma {:induction false} Pass1Valid(d: Sidebar, es: seq<Entry>)
    requires Valid(d)
    ensures Valid(Pass1(d, es).dom)
    decreases |es|
  {
    if es != [] {
      Pass1Valid(d, es[..|es| - 1]);
      var r := Pass1(d, es[..|es| - 1]);
      if r.Ran? {
        match es[|es| - 1]
        case Full(t) => UpdatedValid(r.dom, t);
        case Removal(id) => RemovedValid(r.dom, id);
      }
    }
  }

  lemma {:induction false} Pass2Valid(d: Sidebar, es: seq<Entry>)
    requires Valid(d)
    ensures Valid(Pass2(d, es).dom)
    decreases |es|
  {
    if es != [] {
      Pass2Valid(d, es[..|es| - 1]);
      var r := Pass2(d, es[..|es| - 1]);
      if r.Ran? && es[|es| - 1].Full? {
        PlacedValid(r.dom, es[|es| - 1].tab);
      }
    }
  }

  /**
   * commands.update keeps the shell's invariant, whether the batch
   * finishes or throws part way: records and listed elements stay
   * consistent and no element ever gets the class "closed".
   */
  lemma BatchValid(d: Sidebar, es: seq<Entry>)
    requires Valid(d)
    ensures Valid(Batch(d, es).dom)
  {
    Pass1Valid(d, es);
    if Pass1(d, es).Ran? {
      Pass2Valid(Pass1(d, es).dom, es);
    }
  }

  /** commands.view keeps the shell's invariant, starting from an empty top list and no records. */
  lemma ViewedValid(d: Sidebar, ts: seq<TabData>)
    requires Valid(d)
    ensures Valid(Viewed(d, ts).dom)
  {
    assert Valid(Cleared(d));
    BatchValid(Cleared(d), AsEntries(ts));
  }

  // ------------------------------------------------------------ properties: sibling order

  predicate Distinct(s: seq<Elem>) {
    forall i, j :: 0 <= i < j < |s| ==> s[i] != s[j]
  }

  /** A list as the shell keeps it: no element twice, every element keyed, in key order. */
  predicate SortedList(d: Sidebar, s: seq<Elem>) {
    Distinct(s) && SortedKeys(d, s)
  }

  /** Every live list, the top list and each record's own list, is a sorted list. */
  predicate SortedAll(d: Sidebar) {
    SortedList(d, ListAt(d.lists, TOP)) &&
    forall id :: id in d.items ==> SortedList(d, ListAt(d.lists, d.items[id].elem))
  }

  /** Sortedness reads only the keys, so it carries over to a state where the listed elements keep theirs. */
  lemma SortedListKeys(d: Sidebar, r: Sidebar, s: seq<Elem>)
    requires SortedList(d, s)
    requires forall x :: x in s ==> Key(r, x) == Key(d, x)
    ensures SortedList(r, s)
  {
    forall i, j | 0 <= i < j < |s|
      ensures Le(Key(r, s[i]), Key(r, s[j]))
    {
      assert s[i] in s && s[j] in s;
    }
  }

  lemma ConsSorted(d: Sidebar, a: Elem, w: seq<Elem>)
    requires SortedList(d, w) && Key(d, a).Some? && a !in w
    requires forall x :: x in w ==> Le(Key(d, a), Key(d, x))
    ensures SortedList(d, [a] + w)
  {
    var s := [a] + w;
    assert forall j :: 1 <= j < |s| ==> s[j] == w[j - 1];
    forall j | 1 <= j < |s|
      ensures Le(Key(d, s[0]), Key(d, s[j]))
    {
      assert w[j - 1] in w;
    }
  }

  /** Taking an element out of a sorted list leaves it sorted. */
  lemma {:induction false} WithoutSorted(d: Sidebar, s: seq<Elem>, e: Elem)
    requires SortedList(d, s)
    ensures SortedList(d, Without(s, e))
  {
    if s != [] {
      var t := s[1..];
      assert forall j :: 0 <= j < |t| ==> t[j] == s[j + 1];
      assert SortedList(d, t);
      var w := Without(t, e);
      WithoutSorted(d, t, e);
      WithoutSpec(t, e);
      if s[0] != e {
        assert s[0] in s;
        forall x | x in w
          ensures Le(Key(d, s[0]), Key(d, x)) && x != s[0]
        {
          var j :| 0 <= j < |t| && t[j] == x;
          assert s[j + 1] == x;
        }
        ConsSorted(d, s[0], w);
      }
    }
  }

  lemma DistinctInsert(w: seq<Elem>, e: Elem, k: nat)
    requires Distinct(w) && e !in w && k <= |w|
    ensures Distinct(w[..k] + [e] + w[k..])
  {
    var s := w[..k] + [e] + w[k..];
    assert forall j :: 0 <= j < |s| && j != k ==> s[j] == (if j < k then w[j] else w[j - 1]);
    forall i, j | 0 <= i < j < |s|
      ensures s[i] != s[j]
    {
      if i == k {
        assert s[j] in w;
      } else if j == k {
        assert s[i] in w;
      }
    }
  }

  /** The top list, or the own list of a record. */
  predicate LiveList(d: Sidebar, l: Elem) {
    l == TOP || exists id :: id in d.items && l == d.items[id].elem
  }

  lemma LiveSorted(d: Sidebar, l: Elem)
    requires SortedAll(d) && LiveList(d, l)
    ensures SortedList(d, ListAt(d.lists, l))
  {
  }

  /** A listed element of a live list has a record, and that record's element is it. */
  lemma LiveOwned(d: Sidebar, l: Elem, x: Elem)
    requires Valid(d) && LiveList(d, l) && x in ListAt(d.lists, l)
    ensures Owned(d, x)
  {
  }

  /** A live list of the detached lists is the live list without e. */
  lemma DetachAt(lists: map<Elem, seq<Elem>>, e: Elem, l: Elem)
    ensures ListAt(Detach(lists, e), l) == Without(ListAt(lists, l), e)
  {
    if l !in lists {
      WithoutSpec([], e);
    }
  }

  /**
   * A live list that loses e and whose other elements keep their keys
   * stays sorted.
   */
  lemma KeptSorted(d: Sidebar, r: Sidebar, l: Elem, e: Elem)
    requires Valid(d) && SortedAll(d) && LiveList(d, l)
    requires ListAt(r.lists, l) == Without(ListAt(d.lists, l), e)
    requires forall x :: Owned(d, x) && x != e ==> Key(r, x) == Key(d, x)
    ensures SortedList(r, ListAt(r.lists, l))
  {
    var s := ListAt(d.lists, l);
    LiveSorted(d, l);
    WithoutSorted(d, s, e);
    WithoutSpec(s, e);
    forall x | x in Without(s, e)
      ensures Key(r, x) == Key(d, x)
    {
      LiveOwned(d, l, x);
    }
    SortedListKeys(d, r, Without(s, e));
  }

  /** create_item keeps every live list sorted: the new list is empty and no listed key changes. */
  lemma CreatedSorted(d: Sidebar, t: TabData)
    requires Valid(d) && SortedAll(d) && t.id !in d.items
    ensures SortedAll(Created(d, t))
  {
    var r := Created(d, t);
    assert forall x :: Owned(d, x) ==> Key(r, x) == Key(d, x);
    WithoutSpec(ListAt(d.lists, TOP), d.next);
    KeptSorted(d, r, TOP, d.next);
    forall id | id in r.items
      ensures SortedList(r, ListAt(r.lists, r.items[id].elem))
    {
      if id != t.id {
        var l := d.items[id].elem;
        WithoutSpec(ListAt(d.lists, l), d.next);
        KeptSorted(d, r, l, d.next);
      }
    }
  }

  /** update_item of a known tab keeps every live list sorted: keys stay, and a moved element only leaves its list. */
  lemma RestyledSorted(d: Sidebar, t: TabData)
    requires Valid(d) && SortedAll(d) && t.id in d.items
    ensures SortedAll(Updated(d, t))
  {
    var r := Updated(d, t);
    var e := d.items[t.id].elem;
    assert forall x :: Key(r, x) == Key(d, x);
    forall l | LiveList(d, l)
      ensures SortedList(r, ListAt(r.lists, l))
    {
      if Moves(d.items[t.id], t) {
        DetachAt(d.lists, e, l);
        KeptSorted(d, r, l, e);
      } else {
        WithoutSpec(ListAt(d.lists, l), 0);
        KeptSorted(d, r, l, 0);
      }
    }
    assert LiveList(d, TOP);
    forall id | id in r.items
      ensures SortedList(r, ListAt(r.lists, r.items[id].elem))
    {
      assert LiveList(d, r.items[id].elem);
    }
  }

  lemma UpdatedSorted(d: Sidebar, t: TabData)
    requires Valid(d) && SortedAll(d)
    ensures SortedAll(Updated(d, t))
  {
    if t.id !in d.items {
      CreatedSorted(d, t);
    } else {
      RestyledSorted(d, t);
    }
  }

  /** remove_item keeps every live list sorted. */
  lemma RemovedSorted(d: Sidebar, id: Id)
    requires Valid(d) && SortedAll(d)
    ensures SortedAll(Removed(d, id).dom)
  {
    if id in d.items {
      var r := Removed(d, id).dom;
      var e := d.items[id].elem;
      assert forall x :: Owned(d, x) && x != e ==> Key(r, x) == Key(d, x);
      DetachAt(d.lists, e, TOP);
      KeptSorted(d, r, TOP, e);
      forall j | j in r.items
        ensures SortedList(r, ListAt(r.lists, r.items[j].elem))
      {
        var l := r.items[j].elem;
        assert LiveList(d, l);
        DetachAt(d.lists, e, l);
        KeptSorted(d, r, l, e);
      }
    }
  }

  /** The list a placement inserts into stays sorted and holds each element once. */
  lemma PlacedTargetSorted(d: Sidebar, t: TabData)
    requires Valid(d) && SortedAll(d) && Placed(d, t).Ran?
    ensures t.id in d.items && (t.parent.Some? ==> t.parent.value in d.items)
    ensures SortedList(Placed(d, t).dom, ListAt(Placed(d, t).dom.lists, TargetOf(d, t)))
  {
    PlacedList(d, t);
    var r := Placed(d, t).dom;
    var e := d.items[t.id].elem;
    var target := TargetOf(d, t);
    var list := ListAt(d.lists, target);
    assert LiveList(d, target);
    LiveSorted(d, target);
    WithoutSorted(d, list, e);
    PlacedSorted(d, t);
    var w := Without(list, e);
    WithoutSpec(list, e);
    var k :| 0 <= k <= |w| && r.lists[target] == w[..k] + [e] + w[k..];
    DistinctInsert(w, e, k);
  }

  /** place_item keeps every live list sorted when it does not throw. */
  lemma PlacedSortedAll(d: Sidebar, t: TabData)
    requires Valid(d) && SortedAll(d) && Placed(d, t).Ran?
    ensures SortedAll(Placed(d, t).dom)
  {
    PlacedList(d, t);
    PlacedTargetSorted(d, t);
    var r := Placed(d, t).dom;
    var e := d.items[t.id].elem;
    var target := TargetOf(d, t);
    assert forall x :: Owned(d, x) && x != e ==> Key(r, x) == Key(d, x);
    forall l | LiveList(d, l) && l != target
      ensures SortedList(r, ListAt(r.lists, l))
    {
      DetachAt(d.lists, e, l);
      KeptSorted(d, r, l, e);
    }
    assert LiveList(d, TOP);
    forall j | j in r.items
      ensures SortedList(r, ListAt(r.lists, r.items[j].elem))
    {
      assert LiveList(d, r.items[j].elem);
    }
  }

  lemma {:induction false} Pass1Sorted(d: Sidebar, es: seq<Entry>)
    requires Valid(d) && SortedAll(d)
    ensures SortedAll(Pass1(d, es).dom)
    decreases |es|
  {
    if es != [] {
      var p := es[..|es| - 1];
      Pass1Sorted(d, p);
      Pass1Valid(d, p);
      var r := Pass1(d, p);
      if r.Ran? {
        match es[|es| - 1]
        case Full(t) => UpdatedSorted(r.dom, t);
        case Removal(id) => RemovedSorted(r.dom, id);
      }
    }
  }

  lemma {:induction false} Pass2Sorted(d: Sidebar, es: seq<Entry>)
    requires Valid(d) && SortedAll(d) && Pass2(d, es).Ran?
    ensures SortedAll(Pass2(d, es).dom)
    decreases |es|
  {
    if es != [] {
      var p := es[..|es| - 1];
      Pass2Sorted(d, p);
      Pass2Valid(d, p);
      if es[|es| - 1].Full? {
        PlacedSortedAll(Pass2(d, p).dom, es[|es| - 1].tab);
      }
    }
  }

  /**
   * commands.update keeps every live list in position order, each element
   * once, when it does not throw: in the top list and in every record's
   * own list, no sibling has a key below an earlier sibling's.
   */
  lemma BatchSorted(d: Sidebar, es: seq<Entry>)
    requires Valid(d) && SortedAll(d) && Batch(d, es).Ran?
    ensures SortedAll(Batch(d, es).dom)
  {
    Pass1Valid(d, es);
    Pass1Sorted(d, es);
    Pass2Sorted(Pass1(d, es).dom, es);
  }

  /** commands.view leaves every live list in position order when it does not throw, whatever came before. */
  lemma ViewedSorted(d: Sidebar, ts: seq<TabData>)
    requires Valid(d) && Viewed(d, ts).Ran?
    ensures SortedAll(Viewed(d, ts).dom)
  {
    assert Valid(Cleared(d)) && SortedAll(Cleared(d));
    BatchSorted(Cleared(d), AsEntries(ts));
  }


  lemma InitialValid()
    ensures Valid(Initial)
  {
  }

  /** A placement that finds no greater sibling and no hierarchy clash appends the element to the target list. */
  lemma PlacedAppends(d: Sidebar, t: TabData)
    requires t.id in d.items && (t.parent.Some? ==> t.parent.value in d.items)
    requires Scan(Stored(d, t), ListAt(d.lists, TargetOf(Stored(d, t), t)), t.position) == Ok(None)
    requires !Reaches(d.lists, d.items[t.id].elem, TargetOf(Stored(d, t), t), |d.lists|)
    ensures var e := d.items[t.id].elem; var target := TargetOf(Stored(d, t), t);
      Placed(d, t) == Ran(Stored(d, t).(lists := Detach(d.lists, e)[target := ListAt(Detach(d.lists, e), target) + [e]]))
  {
  }

  lemma ViewedCreates(d: Sidebar, c: TabData, p: TabData)
    requires c.id != p.id
    ensures Pass1(Cleared(d), AsEntries([c, p])) == Ran(Created(Created(Cleared(d), c), p))
  {
    var d0 := Cleared(d);
    var es := AsEntries([c, p]);
    assert es == [Full(c), Full(p)];
    assert es[..1] == [Full(c)] && es[..1][..0] == [];
    assert Pass1(d0, es[..1]) == Ran(Created(d0, c));
  }

  /** The child's placement in a view of [child, parent]: into the parent's still empty list. */
  lemma ChildPlaced(d: Sidebar, c: TabData, p: TabData)
    requires Valid(d)
    requires c.id != p.id && c.parent == Some(p.id)
    ensures var d2 := Created(Created(Cleared(d), c), p); var n := d.next;
      Placed(d2, c).Ran? &&
      var d3 := Placed(d2, c).dom;
      c.id in d3.items && p.id in d3.items && n in d3.lists && n + 1 in d3.lists && TOP in d3.lists &&
      d3.items[c.id].elem == n && d3.items[p.id].elem == n + 1 &&
      d3.lists[n + 1] == [n] && d3.lists[TOP] == [] && d3.lists[n] == []
  {
    var d2 := Created(Created(Cleared(d), c), p);
    var n := d.next;
    assert d2.lists[n] == [] && d2.lists[n + 1] == [] && d2.lists[TOP] == [];
    assert d2.items[c.id].elem == n && d2.items[p.id].elem == n + 1;
    PlacedAppends(d2, c);
  }

  /** The parent's placement in a view of [child, parent]: into the empty top list, taking the child's subtree along. */
  lemma ParentPlaced(d3: Sidebar, p: TabData, n: Elem, c: Id)
    requires p.parent.None? && p.id in d3.items && c in d3.items && 0 < n
    requires d3.items[c].elem == n && d3.items[p.id].elem == n + 1
    requires n + 1 in d3.lists && d3.lists[n + 1] == [n] && TOP in d3.lists && d3.lists[TOP] == [] && n in d3.lists && d3.lists[n] == []
    ensures Placed(d3, p).Ran?
    ensures var r := Placed(d3, p).dom;
      c in r.items && p.id in r.items && r.items[p.id].elem == n + 1 && r.items[c].elem == n &&
      ListAt(r.lists, n + 1) == [n] && ListAt(r.lists, TOP) == [n + 1]
  {
    assert !Reaches(d3.lists, n + 1, TOP, |d3.lists|) by {
      assert ListAt(d3.lists, n + 1) == [n];
      assert !Reaches(d3.lists, n, TOP, |d3.lists| - 1);
    }
    PlacedAppends(d3, p);
    assert Without([n], n + 1) == [n];
  }

  /**
   * Both passes run over the whole view before anything is placed, so a
   * child sent before its parent still lands in the parent's list, and the
   * parent in the top list.
   */
  lemma ChildBeforeParent(d: Sidebar, c: TabData, p: TabData)
    requires Valid(d)
    requires c.id != p.id && c.parent == Some(p.id) && p.parent.None?
    ensures Viewed(d, [c, p]).Ran?
    ensures var r := Viewed(d, [c, p]).dom;
      c.id in r.items && p.id in r.items &&
      ListAt(r.lists, r.items[p.id].elem) == [r.items[c.id].elem] &&
      ListAt(r.lists, TOP) == [r.items[p.id].elem]
  {
    var es := AsEntries([c, p]);
    assert es == [Full(c), Full(p)];
    assert es[..1] == [Full(c)] && es[..1][..0] == [];
    ViewedCreates(d, c, p);
    var d2 := Created(Created(Cleared(d), c), p);
    assert Pass2(d2, es[..1][..0]) == Ran(d2);
    ChildPlaced(d, c, p);
    var d3 := Placed(d2, c).dom;
    assert Pass2(d2, es[..1]) == Ran(d3);
    ParentPlaced(d3, p, d.next, c.id);
    assert Viewed(d, [c, p]) == Placed(d3, p);
  }

  /**
   * As written, update_item throws for a known tab whose parent or position
   * changed, so the rest of the batch, its placements included, never runs;
   * for every other tuple it does what the intended version does.
   */
  lemma MovedItemThrows(d: Sidebar, t: TabData)
    ensures UpdatedAsWritten(d, t).Threw? <==> t.id in d.items && Moves(d.items[t.id], t)
    ensures UpdatedAsWritten(d, t).Ran? ==> UpdatedAsWritten(d, t).dom == Updated(d, t)
    ensures UpdatedAsWritten(d, t).Threw? ==> Updated(d, t).lists == Detach(d.lists, d.items[t.id].elem)
  {
  }

  // ------------------------------------------------------------ clicks

  /** How a tab is placed relative to another: the relation code move_tab carries, or the initial 0 when none was chosen. */
  datatype Relation = Unset | Chosen(rel: TabTable.TabRelation)

  /** What the shell posts to the app. */
  datatype Message =
    | FocusTab(id: Id)
    | TrashTab(id: Id)
    | DeleteTab(id: Id)
    | ExpandTab(id: Id)
    | ContractTab(id: Id)
    | NewChild(id: Id)
    | MoveTab(id: Id, dest: Id, rel: Relation)

  /** close_or_delete_tab: delete a tab already marked "closed", trash any other. */
  function CloseOrDelete(el: Element): Message {
    if "closed" in el.classes then DeleteTab(el.id) else TrashTab(el.id)
  }

  /** on_tab_clicked: the left button focuses, the middle one closes, others do nothing. */
  function TabClicked(el: Element, button: int): Option<Message> {
    if button == 0 then Some(FocusTab(el.id))
    else if button == 1 then Some(CloseOrDelete(el))
    else None
  }

  /** on_close_clicked: the close button closes its tab as the middle button does. */
  function CloseClicked(el: Element): Message {
    CloseOrDelete(el)
  }

  /** on_new_child_clicked: ask for a new child of the tab. */
  function NewChildClicked(el: Element): Message {
    NewChild(el.id)
  }

  /** on_expand_clicked: contract an expanded tab, expand any other. */
  function ExpandClicked(el: Element): Message {
    if "expanded" in el.classes then ContractTab(el.id) else ExpandTab(el.id)
  }

  /**
   * No element ever has the class "closed", so closing a tab, by its close
   * button or the middle button, always posts trash_tab and never
   * delete_tab, after any batch.
   */
  lemma EveryCloseTrashes(d: Sidebar, es: seq<Entry>, k: Elem)
    requires Valid(d) && k in Batch(d, es).dom.elems
    ensures var el := Batch(d, es).dom.elems[k];
      CloseClicked(el) == TrashTab(el.id) && TabClicked(el, 1) == Some(TrashTab(el.id))
      && NewChildClicked(el) == NewChild(el.id)
  {
    BatchValid(d, es);
  }

  /** After a tuple is applied, the expand button asks to contract exactly when the tuple said expanded. */
  lemma ExpandFollowsFlags(d: Sidebar, t: TabData)
    requires Valid(d)
    ensures var r := Updated(d, t); t.id in r.items && r.items[t.id].elem in r.elems
    ensures var r := Updated(d, t); var el := r.elems[r.items[t.id].elem];
      ExpandClicked(el) == (if Has(t.flags, EXPANDED) then ContractTab(t.id) else ExpandTab(t.id))
  {
    if t.id in d.items {
      UpdatedKnown(d, t);
    } else {
      CreatedShape(d, t);
      CreatedClassesFollowFlags(t.flags);
    }
  }

  // ------------------------------------------------------------ dragging

  /**
   * The drag state: grabbing after a press, moving once the pointer has
   * travelled far enough, the pressed tab's id, the item under the pointer
   * and the relation chosen there, where the press started, the item the
   * destination marker sits on, and the page's "moving-tab" class.
   */
  datatype Drag = Drag(
    grabbing: bool, moving: bool, movingId: Id,
    destination: Option<Elem>, rel: Relation, originY: int,
    marker: Option<Elem>, movingClass: bool)

  const Idle := Drag(false, false, 0, None, Unset, 0, None, false)

  /** The tab under the pointer: its item element, and its top and height on screen. */
  datatype Target = Target(item: Elem, top: int, height: nat)

  /** on_tab_mousedown: start grabbing the pressed tab at this height. */
  function Pressed(s: Drag, id: Id, y: int): Drag {
    s.(grabbing := true, originY := y, movingId := id)
  }

  /**
   * The band the pointer is in, by the ratio of its offset into the tab to
   * the tab's height: below 0.3 before, above 0.7 after, otherwise inside as
   * the last child; compared by cross-multiplying, which gives the same
   * answers, a zero height included.
   */
  function Band(y: int, top: int, height: nat): TabTable.TabRelation {
    var dy := y - top;
    if 10 * dy < 3 * height then TabTable.Before
    else if 10 * dy > 7 * height then TabTable.After
    else TabTable.LastChild
  }

  /** Moving starts once the vertical travel exceeds 24 pixels. */
  predicate PastThreshold(s: Drag, y: int) {
    (y - s.originY) * (y - s.originY) > 24 * 24
  }

  /**
   * on_tab_drag as intended: past the threshold the drag is moving; while
   * moving, the destination and the marker follow the tab under the
   * pointer, and the band there picks the relation. Like the handler, it
   * does not test `grabbing`: the handler only listens for mouse moves
   * between a press and a release (src/win32app/shell.js:426, 472).
   */
  function Dragged(s: Drag, y: int, over: Option<Target>): Drag {
    var s1 := if PastThreshold(s, y) then s.(moving := true, movingClass := true) else s;
    if !s1.moving then s1
    else if over.None? then s1.(destination := None, marker := None)
    else s1.(destination := Some(over.value.item), marker := Some(over.value.item),
             rel := Chosen(Band(y, over.value.top, over.value.height)))
  }

  datatype DragRun = DragRun(state: Drag, threw: bool)

  /**
   * on_tab_drag as written: the relations are read from `TabRelation`,
   * which the script never defines, so over a tab it throws after setting
   * the destination and the marker and before choosing a relation.
   */
  function DraggedAsWritten(s: Drag, y: int, over: Option<Target>): DragRun {
    var s1 := if PastThreshold(s, y) then s.(moving := true, movingClass := true) else s;
    if !s1.moving then DragRun(s1, false)
    else if over.None? then DragRun(s1.(destination := None, marker := None), false)
    else DragRun(s1.(destination := Some(over.value.item), marker := Some(over.value.item)), true)
  }

  datatype Reaction = Reaction(state: Drag, posted: Option<Message>)

  /**
   * on_tab_release: stop grabbing, drop the marker and the page class; if
   * the drag was moving, stop and post move_tab for a destination other
   * than the dragged tab itself. The destination and relation are left as
   * they were.
   */
  function Released(s: Drag, elems: map<Elem, Element>): Reaction {
    var s1 := s.(grabbing := false, marker := None, movingClass := false);
    if !s.moving then Reaction(s1, None)
    else
      var s2 := s1.(moving := false);
      if s.destination.Some? && ElemAt(elems, s.destination.value).id != s.movingId then
        Reaction(s2, Some(MoveTab(s.movingId, ElemAt(elems, s.destination.value).id, s.rel)))
      else Reaction(s2, None)
  }

  /**
   * A drag step: moving turns on exactly past the threshold and never
   * turns off; while moving, the destination is the tab under the pointer
   * (none when there is none); the press itself is never forgotten.
   */
  lemma DragSteps(s: Drag, y: int, over: Option<Target>)
    ensures var r := Dragged(s, y, over);
      (r.moving <==> s.moving || PastThreshold(s, y)) &&
      r.grabbing == s.grabbing && r.movingId == s.movingId && r.originY == s.originY &&
      (r.moving ==> r.destination == (if over.Some? then Some(over.value.item) else None)) &&
      (r.moving && over.Some? ==> r.rel == Chosen(Band(y, over.value.top, over.value.height))) &&
      (!r.moving ==> r == s)
  {
  }

  function BandRank(b: TabTable.TabRelation): nat {
    match b
    case Before => 0
    case LastChild => 1
    case After => 2
    case FirstChild => 3
  }

  /**
   * The bands run top to bottom: moving the pointer down never goes from
   * after back to inside or before; the top edge of a tab is in the before
   * band and its bottom edge in the after band.
   */
  lemma BandsOrdered(y1: int, y2: int, top: int, height: nat)
    requires y1 <= y2
    ensures BandRank(Band(y1, top, height)) <= BandRank(Band(y2, top, height)) <= 2
    ensures height > 0 ==> Band(top, top, height) == TabTable.Before && Band(top + height, top, height) == TabTable.After
  {
  }

  /**
   * A release posts exactly one move_tab when the drag was moving and
   * ended over a tab other than the dragged one, carrying the dragged id,
   * the destination's id and the chosen relation, and nothing otherwise;
   * afterwards nothing is grabbed or moving and the marker is gone.
   */
  lemma ReleasePosts(s: Drag, elems: map<Elem, Element>)
    ensures var r := Released(s, elems);
      (r.posted.Some? <==> s.moving && s.destination.Some? && ElemAt(elems, s.destination.value).id != s.movingId) &&
      (r.posted.Some? ==> r.posted.value == MoveTab(s.movingId, ElemAt(elems, s.destination.value).id, s.rel)) &&
      !r.state.grabbing && !r.state.moving && r.state.marker.None? && !r.state.movingClass &&
      r.state.destination == s.destination && r.state.rel == s.rel
  {
  }

  /**
   * As written, a drag step never chooses a relation, and it throws
   * exactly when it is moving over a tab; so a press, a move over another
   * tab and a release post move_tab with the initial relation 0.
   */
  lemma RelationNeverChosen(id: Id, y0: int, y: int, t: Target, elems: map<Elem, Element>)
    requires (y - y0) * (y - y0) > 24 * 24 && ElemAt(elems, t.item).id != id
    ensures var s := Pressed(Idle, id, y0); var r := DraggedAsWritten(s, y, Some(t));
      r.threw && r.state.rel == Unset &&
      Released(r.state, elems).posted == Some(MoveTab(id, ElemAt(elems, t.item).id, Unset))
  {
  }

  /** As intended, the same press, move and release post the band under the pointer. */
  lemma RelationChosen(id: Id, y0: int, y: int, t: Target, elems: map<Elem, Element>)
    requires (y - y0) * (y - y0) > 24 * 24 && ElemAt(elems, t.item).id != id
    ensures var s := Pressed(Idle, id, y0); var r := Dragged(s, y, Some(t));
      Released(r, elems).posted == Some(MoveTab(id, ElemAt(elems, t.item).id, Chosen(Band(y, t.top, t.height))))
  {
  }

  /** As written, no drag step ever changes the relation. */
  lemma AsWrittenKeepsRelation(s: Drag, y: int, over: Option<Target>)
    ensures DraggedAsWritten(s, y, over).state.rel == s.rel
    ensures DraggedAsWritten(s, y, over).threw <==> (s.moving || PastThreshold(s, y)) && over.Some?
  {
  }

  // ------------------------------------------------------------ the script's state

  /**
   * The shell page: `items_by_id` and the DOM lists, as fields the
   * handlers update in place, and the module-level drag variables.
   */
  class Shell {
    var items: map<Id, Item>
    var lists: map<Elem, seq<Elem>>
    var elems: map<Elem, Element>
    var next: Elem
    var toolbar: Option<Toolbar>

    var grabbing: bool
    var moving: bool
    var movingId: Id
    var destination: Option<Elem>
    var rel: Relation
    var originY: int
    var marker: Option<Elem>
    var movingClass: bool

    function State(): Sidebar
      reads this`items, this`lists, this`elems, this`next, this`toolbar
    {
      Sidebar(items, lists, elems, next, toolbar)
    }

    function DragState(): Drag
      reads this`grabbing, this`moving, this`movingId, this`destination, this`rel, this`originY, this`marker, this`movingClass
    {
      Drag(grabbing, moving, movingId, destination, rel, originY, marker, movingClass)
    }

    constructor ()
      ensures State() == Initial && DragState() == Idle
    {
      items, lists, elems, next, toolbar := map[], map[TOP := []], map[], 1, None;
      grabbing, moving, movingId, destination, rel, originY, marker, movingClass := false, false, 0, None, Unset, 0, None, false;
    }

    /** create_item. */
    method CreateItem(t: TabData)
      modifies this`items, this`lists, this`elems, this`next, this`toolbar
      ensures State() == Created(old(State()), t)
    {
      var classes := {"item"};
      if Has(t.flags, FOCUSED) { classes := classes + {"focused"}; }
      if Has(t.flags, VISITED) { classes := classes + {"visited"}; }
      if Has(t.flags, LOADED) { classes := classes + {"loaded"}; }
      if Has(t.flags, TRASHED) { classes := classes + {"trashed"}; }
      if Has(t.flags, EXPANDABLE) { classes := classes + {"expandable"}; }
      if Has(t.flags, EXPANDED) { classes := classes + {"expanded"}; }
      assert classes == CreatedClasses(t.flags);
      if Has(t.flags, FOCUSED) { toolbar := Some(Toolbar(t.url, Has(t.flags, LOADING))); }
      var e := next;
      elems := elems[e := Element(t.id, classes, t.title, t.title + "\n" + t.url, Some(t.faviconUrl))];
      lists := lists[e := []];
      next := e + 1;
      items := items[t.id := Item(None, None, e)];
    }

    /** update_item, with the detach of a moved tab as intended. */
    method UpdateItem(t: TabData)
      modifies this`items, this`lists, this`elems, this`next, this`toolbar
      ensures State() == Updated(old(State()), t)
    {
      if t.id !in items {
        CreateItem(t);
        return;
      }
      var item := items[t.id];
      var el := ElemAt(elems, item.elem);
      var cs := el.classes;
      cs := Toggle(cs, "focused", Has(t.flags, FOCUSED));
      cs := Toggle(cs, "visited", Has(t.flags, VISITED));
      cs := Toggle(cs, "loading", Has(t.flags, LOADING));
      cs := Toggle(cs, "loaded", Has(t.flags, LOADED));
      cs := Toggle(cs, "trashed", Has(t.flags, TRASHED));
      cs := Toggle(cs, "expandable", Has(t.flags, EXPANDABLE));
      cs := Toggle(cs, "expanded", Has(t.flags, EXPANDED));
      if Has(t.flags, FOCUSED) { toolbar := Some(Toolbar(t.url, Has(t.flags, LOADING))); }
      var favicon := if t.faviconUrl != "" then Some(t.faviconUrl) else None;
      elems := elems[item.elem := el.(classes := cs, title := t.title, tooltip := t.title + "\n" + t.url, favicon := favicon)];
      if t.parent != item.parent || Some(t.position) != item.position {
        lists := Detach(lists, item.elem);
      }
    }

    /** remove_item; false when it throws on an unknown id. */
    method RemoveItem(id: Id) returns (ok: bool)
      modifies this`items, this`lists
      ensures ok == Removed(old(State()), id).Ran? && State() == Removed(old(State()), id).dom
    {
      if id !in items {
        return false;
      }
      lists := Detach(lists, items[id].elem);
      items := items - {id};
      return true;
    }

    /** place_item: scan the target list's siblings for the first greater key, then insert there; false when it throws. */
    method PlaceItem(t: TabData) returns (ok: bool)
      modifies this`items, this`lists
      ensures ok == Placed(old(State()), t).Ran? && State() == Placed(old(State()), t).dom
    {
      if t.id !in items {
        return false;
      }
      var e := items[t.id].elem;
      items := items[t.id := Item(t.parent, Some(t.position), e)];
      if t.parent.Some? && t.parent.value !in items {
        return false;
      }
      var target := if t.parent.None? then TOP else items[t.parent.value].elem;
      var sibs := ListAt(lists, target);
      var before: Option<Elem> := None;
      var i := 0;
      while i < |sibs|
        invariant 0 <= i <= |sibs|
        invariant Scan(State(), sibs, t.position) == Scan(State(), sibs[i..], t.position)
      {
        var sib := sibs[i];
        if !(sib in elems && elems[sib].id in items) {
          return false;
        }
        if Above(t.position, items[elems[sib].id].position) {
          before := Some(sib);
          break;
        }
        assert sibs[i..][1..] == sibs[i + 1..];
        i := i + 1;
      }
      if Reaches(lists, e, target, |lists|) {
        return false;
      }
      var detached := Detach(lists, e);
      lists := detached[target := InsertBefore(ListAt(detached, target), e, before)];
      return true;
    }

    /** commands.update's first loop: update_item or remove_item per entry; false when one throws. */
    method UpdateEach(es: seq<Entry>) returns (ok: bool)
      modifies this`items, this`lists, this`elems, this`next, this`toolbar
      ensures ok == Pass1(old(State()), es).Ran? && State() == Pass1(old(State()), es).dom
    {
      ghost var d0 := State();
      for i := 0 to |es|
        invariant Pass1(d0, es[..i]) == Ran(State())
      {
        assert es[..i + 1][..i] == es[..i];
        match es[i]
        case Full(t) =>
          UpdateItem(t);
        case Removal(id) =>
          var done := RemoveItem(id);
          if !done {
            Pass1Sticks(d0, es, i + 1);
            return false;
          }
      }
      assert es[..|es|] == es;
      return true;
    }

    /** commands.update's second loop: place_item per full entry; false when one throws. */
    method PlaceEach(es: seq<Entry>) returns (ok: bool)
      modifies this`items, this`lists
      ensures ok == Pass2(old(State()), es).Ran? && State() == Pass2(old(State()), es).dom
    {
      ghost var d0 := State();
      for i := 0 to |es|
        invariant Pass2(d0, es[..i]) == Ran(State())
      {
        assert es[..i + 1][..i] == es[..i];
        if es[i].Full? {
          var done := PlaceItem(es[i].tab);
          if !done {
            Pass2Sticks(d0, es, i + 1);
            return false;
          }
        }
      }
      assert es[..|es|] == es;
      return true;
    }

    /** commands.update: every update and removal, then every placement; false when a step throws. */
    method Update(es: seq<Entry>) returns (ok: bool)
      modifies this`items, this`lists, this`elems, this`next, this`toolbar
      ensures ok == Batch(old(State()), es).Ran? && State() == Batch(old(State()), es).dom
      ensures old(Valid(State())) ==> Valid(State())
      ensures old(Valid(State()) && SortedAll(State())) && ok ==> SortedAll(State())
    {
      ghost var d0 := State();
      ok := UpdateEach(es);
      if ok {
        ok := PlaceEach(es);
      }
      if Valid(d0) {
        BatchValid(d0, es);
        if ok && SortedAll(d0) {
          BatchSorted(d0, es);
        }
      }
    }

    /** commands.view: empty the top list and forget every record, then apply the tuples as one batch. */
    method View(ts: seq<TabData>) returns (ok: bool)
      modifies this`items, this`lists, this`elems, this`next, this`toolbar
      ensures ok == Viewed(old(State()), ts).Ran? && State() == Viewed(old(State()), ts).dom
      ensures old(Valid(State())) ==> Valid(State())
      ensures old(Valid(State())) && ok ==> SortedAll(State())
    {
      ghost var d00 := State();
      lists := lists[TOP := []];
      items := map[];
      ghost var d0 := State();
      ghost var es := AsEntries(ts);
      for i := 0 to |ts|
        invariant Pass1(d0, es[..i]) == Ran(State())
      {
        assert es[..i + 1][..i] == es[..i];
        UpdateItem(ts[i]);
      }
      assert es[..|ts|] == es;
      ghost var d1 := State();
      for i := 0 to |ts|
        invariant Pass2(d1, es[..i]) == Ran(State())
      {
        assert es[..i + 1][..i] == es[..i];
        var done := PlaceItem(ts[i]);
        if !done {
          Pass2Sticks(d1, es, i + 1);
          if Valid(d00) {
            ViewedValid(d00, ts);
          }
          return false;
        }
      }
      assert es[..|ts|] == es;
      if Valid(d00) {
        ViewedValid(d00, ts);
        ViewedSorted(d00, ts);
      }
      return true;
    }

    /** on_tab_mousedown on the given item element. */
    method OnTabMousedown(item: Elem, y: int)
      modifies this`grabbing, this`originY, this`movingId
      ensures DragState() == Pressed(old(DragState()), ElemAt(elems, item).id, y)
    {
      grabbing := true;
      originY := y;
      movingId := ElemAt(elems, item).id;
    }

    /** on_tab_drag, with the relations as intended. */
    method OnTabDrag(y: int, over: Option<Target>)
      modifies this`moving, this`movingClass, this`destination, this`marker, this`rel
      ensures DragState() == Dragged(old(DragState()), y, over)
    {
      var diff := y - originY;
      if diff * diff > 24 * 24 {
        moving := true;
        movingClass := true;
      }
      if moving {
        if over.Some? {
          destination := Some(over.value.item);
          marker := Some(over.value.item);
          rel := Chosen(Band(y, over.value.top, over.value.height));
        } else {
          destination := None;
          marker := None;
        }
      }
    }

    /** on_tab_release: returns the move_tab message it posts, if any. */
    method OnTabRelease() returns (posted: Option<Message>)
      modifies this`grabbing, this`marker, this`movingClass, this`moving
      ensures Reaction(DragState(), posted) == Released(old(DragState()), elems)
    {
      grabbing := false;
      marker := None;
      movingClass := false;
      posted := None;
      if moving {
        moving := false;
        if destination.Some? {
          var dest := ElemAt(elems, destination.value).id;
          if dest != movingId {
            posted := Some(MoveTab(movingId, dest, rel));
          }
        }
      }
    }
  }
}
