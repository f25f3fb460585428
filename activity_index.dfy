/**
 * The activity table of src/model/internal/activity.cpp: activities by id,
 * plus three secondary indices, by node, by edge for activities with no
 * node, and by view. save re-indexes an activity after its fields changed,
 * using the old_* fields to find the entries to drop. Node URLs, edge ends
 * and the nodes and edges the model layer creates are inputs.
 */
module ActivityIndex {
  import opened Wrappers

  type ActivityId = nat
  type NodeId = nat
  type EdgeId = nat
  type ViewId = nat

  datatype ActivityData = ActivityData(
    node: NodeId, edge: EdgeId, view: ViewId,
    loadingAt: int, loadingAddress: string, reloading: bool,
    oldNode: NodeId, oldNodelessEdge: EdgeId, oldView: ViewId)

  /** The edge under which the activity is indexed: its edge, if it has no node. */
  function NodelessEdge(d: ActivityData): (e: EdgeId)
    ensures e != 0 <==> d.node == 0 && d.edge != 0
  {
    if d.node != 0 then 0 else d.edge
  }

  /** The fields as save leaves them: old_* record what the indices hold. */
  function Saved(d: ActivityData): (s: ActivityData)
    ensures IsSaved(s)
    ensures s.node == d.node && s.edge == d.edge && s.view == d.view
    ensures s.loadingAt == d.loadingAt && s.loadingAddress == d.loadingAddress && s.reloading == d.reloading
  {
    d.(oldNode := d.node, oldNodelessEdge := NodelessEdge(d), oldView := d.view)
  }

  predicate IsSaved(d: ActivityData)
  {
    d.oldNode == d.node && d.oldNodelessEdge == NodelessEdge(d) && d.oldView == d.view
  }

  /** A fresh ActivityData (make_unique): nothing indexed yet. */
  function NewData(node: NodeId, edge: EdgeId, view: ViewId, loadingAt: int, address: string): ActivityData
  {
    ActivityData(node, edge, view, loadingAt, address, false, 0, 0, 0)
  }

  // ------------------------------------------------------------ the indices

  /** The three secondary indices, each keyed by one field of the activity. */
  datatype Index = ByNode | ByNodelessEdge | ByView

  function Key(ix: Index, d: ActivityData): NodeId
  {
    match ix
    case ByNode => d.node
    case ByNodelessEdge => NodelessEdge(d)
    case ByView => d.view
  }

  /** The entry under key k, if any, names an activity with key k. */
  ghost predicate FwdAt(ix: Index, byId: map<ActivityId, ActivityData>, m: map<nat, ActivityId>, k: nat)
  {
    k in m ==> k != 0 && m[k] in byId && Key(ix, byId[m[k]]) == k
  }

  /** Activity id, if it has a key, is the entry under that key. */
  ghost predicate BackAt(ix: Index, byId: map<ActivityId, ActivityData>, m: map<nat, ActivityId>, id: ActivityId)
  {
    id in byId && Key(ix, byId[id]) != 0 ==> Key(ix, byId[id]) in m && m[Key(ix, byId[id])] == id
  }

  /**
   * The index m holds exactly the activities with a non-zero key, under
   * that key: m[k] == id exactly when activity id has key k.
   */
  ghost predicate Indexed(ix: Index, byId: map<ActivityId, ActivityData>, m: map<nat, ActivityId>)
  {
    (forall k :: FwdAt(ix, byId, m, k)) && (forall id :: BackAt(ix, byId, m, id))
  }

  /** The entry under a key of an exact index is an activity with that key. */
  lemma Owner(ix: Index, byId: map<ActivityId, ActivityData>, m: map<nat, ActivityId>, k: nat)
    requires Indexed(ix, byId, m) && k in m
    ensures k != 0 && m[k] in byId && Key(ix, byId[m[k]]) == k
  {
    assert FwdAt(ix, byId, m, k);
  }

  /** A key absent from an exact index belongs to no activity. */
  lemma NoOwner(ix: Index, byId: map<ActivityId, ActivityData>, m: map<nat, ActivityId>, k: nat)
    requires Indexed(ix, byId, m) && k != 0 && k !in m
    ensures forall a :: a in byId ==> Key(ix, byId[a]) != k
  {
    forall a | a in byId
      ensures Key(ix, byId[a]) != k
    {
      assert BackAt(ix, byId, m, a);
    }
  }

  function Erased(m: map<nat, ActivityId>, k0: nat): map<nat, ActivityId>
  {
    if k0 != 0 then m - {k0} else m
  }

  /**
   * The re-indexing of save when an activity's key goes from k0 to k: the
   * old entry is erased and the new one emplaced, which leaves a key
   * already present untouched.
   */
  function Reindexed(m: map<nat, ActivityId>, id: ActivityId, k0: nat, k: nat): map<nat, ActivityId>
  {
    if k == k0 then m
    else
      var e := Erased(m, k0);
      if k != 0 && k !in e then e[k := id] else e
  }

  /** The same, with the new key assigned rather than emplaced, as create does for views. */
  function Claimed(m: map<nat, ActivityId>, id: ActivityId, k0: nat, k: nat): map<nat, ActivityId>
  {
    if k == k0 then m
    else
      var e := Erased(m, k0);
      if k != 0 then e[k := id] else e
  }

  /** Re-keying one activity keeps an index exact, provided its new key is free. */
  lemma Reindex(ix: Index, byId: map<ActivityId, ActivityData>, m: map<nat, ActivityId>, id: ActivityId, s: ActivityData)
    requires Indexed(ix, byId, m) && id in byId
    requires Key(ix, s) != 0 && Key(ix, s) != Key(ix, byId[id]) ==> Key(ix, s) !in m
    ensures Indexed(ix, byId[id := s], Reindexed(m, id, Key(ix, byId[id]), Key(ix, s)))
    ensures Reindexed(m, id, Key(ix, byId[id]), Key(ix, s)) == Claimed(m, id, Key(ix, byId[id]), Key(ix, s))
  {
    var k0, k := Key(ix, byId[id]), Key(ix, s);
    var b := byId[id := s];
    var m' := Reindexed(m, id, k0, k);
    forall q
      ensures FwdAt(ix, b, m', q)
    {
      assert FwdAt(ix, byId, m, q) && BackAt(ix, byId, m, id);
    }
    forall a
      ensures BackAt(ix, b, m', a)
    {
      assert BackAt(ix, byId, m, a) && BackAt(ix, byId, m, id);
    }
  }

  /** A new activity enters an index under its key, which must be free. */
  lemma Enter(ix: Index, byId: map<ActivityId, ActivityData>, m: map<nat, ActivityId>, id: ActivityId, s: ActivityData)
    requires Indexed(ix, byId, m) && id !in byId
    requires Key(ix, s) != 0 ==> Key(ix, s) !in m
    ensures Indexed(ix, byId[id := s], Claimed(m, id, 0, Key(ix, s)))
  {
    var b := byId[id := s];
    var m' := Claimed(m, id, 0, Key(ix, s));
    forall q
      ensures FwdAt(ix, b, m', q)
    {
      assert FwdAt(ix, byId, m, q);
    }
    forall a
      ensures BackAt(ix, b, m', a)
    {
      assert BackAt(ix, byId, m, a);
    }
  }

  /** A deleted activity leaves an index with the entry under its key. */
  lemma Drop(ix: Index, byId: map<ActivityId, ActivityData>, m: map<nat, ActivityId>, id: ActivityId)
    requires Indexed(ix, byId, m) && id in byId
    ensures Indexed(ix, byId - {id}, Erased(m, Key(ix, byId[id])))
  {
    var m' := Erased(m, Key(ix, byId[id]));
    forall q
      ensures FwdAt(ix, byId - {id}, m', q)
    {
      assert FwdAt(ix, byId, m, q);
    }
    forall a
      ensures BackAt(ix, byId - {id}, m', a)
    {
      assert BackAt(ix, byId, m, a) && BackAt(ix, byId, m, id);
    }
  }

  /**
   * A view claimed by activity id: its holder, if any, loses the view and
   * by_view points at id, so by_view stays exact. This is the rule create
   * applies, which save as written does not.
   */
  lemma ClaimView(byId: map<ActivityId, ActivityData>, m: map<nat, ActivityId>, id: ActivityId, s: ActivityData)
    requires Indexed(ByView, byId, m) && id in byId && s.view != 0 && s.view != byId[id].view
    requires s.view in m && m[s.view] in byId
    ensures m[s.view] != id
    ensures var holder := m[s.view];
      var b := byId[holder := byId[holder].(view := 0, oldView := 0)][id := s];
      Indexed(ByView, b, Claimed(m, id, byId[id].view, s.view))
  {
    Owner(ByView, byId, m, s.view);
    var holder := m[s.view];
    var kicked := byId[holder].(view := 0, oldView := 0);
    Reindex(ByView, byId, m, holder, kicked);
    var b1 := byId[holder := kicked];
    assert Reindexed(m, holder, s.view, 0) == m - {s.view};
    Reindex(ByView, b1, m - {s.view}, id, s);
    var k0 := byId[id].view;
    assert b1[id] == byId[id];
    if k0 != 0 {
      assert Claimed(m, id, k0, s.view) == Reindexed(m - {s.view}, id, k0, s.view);
    } else {
      assert FwdAt(ByView, byId, m, 0);
      assert Claimed(m, id, k0, s.view) == Reindexed(m - {s.view}, id, k0, s.view);
    }
  }

  /** The ids below next_id, each holding a saved record. */
  ghost predicate SavedAt(byId: map<ActivityId, ActivityData>, nextId: ActivityId, id: ActivityId)
  {
    id in byId ==> 1 <= id < nextId && IsSaved(byId[id])
  }

  ghost predicate AllSaved(byId: map<ActivityId, ActivityData>, nextId: ActivityId)
  {
    forall id :: SavedAt(byId, nextId, id)
  }

  /** What url_changed reads of the model: node URLs and edge ends. */
  datatype World = World(nodeUrl: map<NodeId, string>, edgeFrom: map<EdgeId, NodeId>, edgeTo: map<EdgeId, NodeId>)

  /** Where url_changed takes the activity. */
  datatype UrlMove =
    | SameUrl                                // the node already has the URL
    | NodeAssigned(node: NodeId)             // the activity had no node: it gets one
    | ToParent(node: NodeId)                 // the parent node has the URL
    | ToChild(node: NodeId, edge: EdgeId)    // the last child edge whose node has the URL
    | ToNewChild(node: NodeId, edge: EdgeId) // a new last child with the URL
  {
    /** The edge the activity ends up on: none for the parent. */
    function Edge(): EdgeId
      requires ToParent? || ToChild? || ToNewChild?
    {
      if ToParent? then 0 else edge
    }
  }

  /** The last child edge (in position order) whose to_node has url, among the first k. */
  function LastChildWithUrl(children: seq<EdgeId>, w: World, url: string, k: nat): (r: Option<nat>)
    requires k <= |children|
    requires forall i :: 0 <= i < |children| ==> children[i] in w.edgeTo
    requires forall i :: 0 <= i < |children| && w.edgeTo[children[i]] != 0 ==> w.edgeTo[children[i]] in w.nodeUrl
    ensures r.Some? ==> r.value < k && w.edgeTo[children[r.value]] != 0 && w.nodeUrl[w.edgeTo[children[r.value]]] == url
    ensures r.None? ==> forall i :: 0 <= i < k && w.edgeTo[children[i]] != 0 ==> w.nodeUrl[w.edgeTo[children[i]]] != url
    ensures r.Some? ==> forall i :: r.value < i < k && w.edgeTo[children[i]] != 0 ==> w.nodeUrl[w.edgeTo[children[i]]] != url
  {
    if k == 0 then None
    else
      var n := w.edgeTo[children[k - 1]];
      if n != 0 && w.nodeUrl[n] == url then Some(k - 1) else LastChildWithUrl(children, w, url, k - 1)
  }

  /**
   * Where url_changed takes an activity with node d.node: nowhere for its
   * own URL, to the parent node, to the last child with the URL, or to a
   * new last child (newNode under newEdge).
   */
  function UrlTarget(d: ActivityData, url: string, w: World, children: seq<EdgeId>, newNode: NodeId, newEdge: EdgeId)
    : (m: UrlMove)
    requires d.node != 0 && d.node in w.nodeUrl
    requires d.edge != 0 ==> d.edge in w.edgeFrom && w.edgeFrom[d.edge] in w.nodeUrl
    requires forall i :: 0 <= i < |children| ==> children[i] in w.edgeTo
    requires forall i :: 0 <= i < |children| && w.edgeTo[children[i]] != 0 ==> w.edgeTo[children[i]] in w.nodeUrl
    ensures m.SameUrl? <==> w.nodeUrl[d.node] == url
    ensures m.ToParent? <==> w.nodeUrl[d.node] != url && d.edge != 0 && w.nodeUrl[w.edgeFrom[d.edge]] == url
    ensures m.ToParent? ==> m.node == w.edgeFrom[d.edge]
    ensures m.ToChild? ==> m.edge in children && w.edgeTo[m.edge] == m.node && m.node != 0 && w.nodeUrl[m.node] == url
    ensures m.ToNewChild? <==> (!m.SameUrl? && !m.ToParent? &&
      forall i :: 0 <= i < |children| && w.edgeTo[children[i]] != 0 ==> w.nodeUrl[w.edgeTo[children[i]]] != url)
    ensures m.ToNewChild? ==> m.node == newNode && m.edge == newEdge
    ensures !m.NodeAssigned?
  {
    if w.nodeUrl[d.node] == url then SameUrl
    else if d.edge != 0 && w.nodeUrl[w.edgeFrom[d.edge]] == url then ToParent(w.edgeFrom[d.edge])
    else match LastChildWithUrl(children, w, url, |children|)
      case Some(i) => ToChild(w.edgeTo[children[i]], children[i])
      case None => ToNewChild(newNode, newEdge)
  }

  /**
   * The records after the holder of view v, if any, lost its view (and
   * old_view): what create and the model's save do before v is claimed.
   */
  function Kicked(byId: map<ActivityId, ActivityData>, byView: map<nat, ActivityId>, v: ViewId)
    : (r: map<ActivityId, ActivityData>)
    ensures r.Keys == byId.Keys
    ensures v != 0 && v in byView && byView[v] in byId ==> r[byView[v]] == byId[byView[v]].(view := 0, oldView := 0)
  {
    if v != 0 && v in byView && byView[v] in byId then
      byId[byView[v] := byId[byView[v]].(view := 0, oldView := 0)]
    else byId
  }


  /** Ids below next_id, saved records, and three exact indices: the invariant of the table. */
  ghost predicate Consistent(nextId: ActivityId, byId: map<ActivityId, ActivityData>,
    byNode: map<nat, ActivityId>, byEdge: map<nat, ActivityId>, byView: map<nat, ActivityId>)
  {
    nextId >= 1 && AllSaved(byId, nextId)
    && Indexed(ByNode, byId, byNode) && Indexed(ByNodelessEdge, byId, byEdge) && Indexed(ByView, byId, byView)
  }

  /** create keeps the table consistent, provided the node or nodeless edge is free. */
  lemma CreateKeeps(nextId: ActivityId, byId: map<ActivityId, ActivityData>,
    byNode: map<nat, ActivityId>, byEdge: map<nat, ActivityId>, byView: map<nat, ActivityId>, d: ActivityData)
    requires Consistent(nextId, byId, byNode, byEdge, byView)
    requires d.node != 0 ==> d.node !in byNode
    requires NodelessEdge(d) != 0 ==> NodelessEdge(d) !in byEdge
    ensures Consistent(nextId + 1, Kicked(byId, byView, d.view)[nextId := Saved(d)],
      Claimed(byNode, nextId, 0, d.node), Claimed(byEdge, nextId, 0, NodelessEdge(d)), Claimed(byView, nextId, 0, d.view))
  {
    var s := Saved(d);
    var b := Kicked(byId, byView, d.view);
    var views := byView;
    assert SavedAt(byId, nextId, nextId);
    if d.view != 0 && d.view in byView {
      Owner(ByView, byId, byView, d.view);
      var holder := byView[d.view];
      assert SavedAt(byId, nextId, holder);
      var kicked := byId[holder].(view := 0, oldView := 0);
      Reindex(ByNode, byId, byNode, holder, kicked);
      Reindex(ByNodelessEdge, byId, byEdge, holder, kicked);
      Reindex(ByView, byId, byView, holder, kicked);
      views := byView - {d.view};
      assert Claimed(views, nextId, 0, d.view) == Claimed(byView, nextId, 0, d.view);
    }
    Enter(ByNode, b, byNode, nextId, s);
    Enter(ByNodelessEdge, b, byEdge, nextId, s);
    Enter(ByView, b, views, nextId, s);
    var b', next := b[nextId := s], nextId + 1;
    forall a
      ensures SavedAt(b', next, a)
    {
      assert SavedAt(byId, nextId, a);
    }
  }

  /**
   * save, with the view rule of create, keeps the table consistent,
   * provided a changed node or nodeless edge is free.
   */
  lemma SaveKeeps(nextId: ActivityId, byId: map<ActivityId, ActivityData>,
    byNode: map<nat, ActivityId>, byEdge: map<nat, ActivityId>, byView: map<nat, ActivityId>, id: ActivityId, d: ActivityData)
    requires Consistent(nextId, byId, byNode, byEdge, byView) && id in byId
    requires d.oldNode == byId[id].oldNode && d.oldNodelessEdge == byId[id].oldNodelessEdge && d.oldView == byId[id].oldView
    requires d.node != d.oldNode && d.node != 0 ==> d.node !in byNode
    requires NodelessEdge(d) != d.oldNodelessEdge && NodelessEdge(d) != 0 ==> NodelessEdge(d) !in byEdge
    ensures Consistent(nextId, Kicked(byId, byView, if d.view != d.oldView then d.view else 0)[id := Saved(d)],
      Reindexed(byNode, id, d.oldNode, d.node), Reindexed(byEdge, id, d.oldNodelessEdge, NodelessEdge(d)),
      Claimed(byView, id, d.oldView, d.view))
  {
    var s := Saved(d);
    assert SavedAt(byId, nextId, id);
    var b := Kicked(byId, byView, if d.view != d.oldView then d.view else 0);
    if d.view != d.oldView && d.view != 0 && d.view in byView {
      Owner(ByView, byId, byView, d.view);
      ClaimView(byId, byView, id, s);
      var holder := byView[d.view];
      assert SavedAt(byId, nextId, holder);
      var kicked := byId[holder].(view := 0, oldView := 0);
      var b1 := byId[holder := kicked];
      Reindex(ByNode, byId, byNode, holder, kicked);
      Reindex(ByNodelessEdge, byId, byEdge, holder, kicked);
      assert b1[id] == byId[id];
      Reindex(ByNode, b1, byNode, id, s);
      Reindex(ByNodelessEdge, b1, byEdge, id, s);
    } else {
      Reindex(ByNode, byId, byNode, id, s);
      Reindex(ByNodelessEdge, byId, byEdge, id, s);
      Reindex(ByView, byId, byView, id, s);
    }
    var b' := b[id := s];
    forall a
      ensures SavedAt(b', nextId, a)
    {
      assert SavedAt(byId, nextId, a);
    }
  }

  /** delete_activity keeps the table consistent. */
  lemma DeleteKeeps(nextId: ActivityId, byId: map<ActivityId, ActivityData>,
    byNode: map<nat, ActivityId>, byEdge: map<nat, ActivityId>, byView: map<nat, ActivityId>, id: ActivityId)
    requires Consistent(nextId, byId, byNode, byEdge, byView) && id in byId
    ensures Consistent(nextId, byId - {id}, Erased(byNode, byId[id].oldNode),
      Erased(byEdge, byId[id].oldNodelessEdge), Erased(byView, byId[id].oldView))
  {
    Drop(ByNode, byId, byNode, id);
    Drop(ByNodelessEdge, byId, byEdge, id);
    Drop(ByView, byId, byView, id);
    assert SavedAt(byId, nextId, id);
    forall a
      ensures SavedAt(byId - {id}, nextId, a)
    {
      assert SavedAt(byId, nextId, a);
    }
  }

  /** One index section of save: erase the old key's entry, then emplace the new one. */
  method ReindexStep(m: map<nat, ActivityId>, id: ActivityId, k0: nat, k: nat) returns (r: map<nat, ActivityId>)
    ensures r == Reindexed(m, id, k0, k)
  {
    r := m;
    if k != k0 {
      if k0 != 0 {
        r := r - {k0};
      }
      if k != 0 && k !in r {
        r := r[k := id];
      }
    }
  }

  /**
   * The view section of save with the rule of create: erase the old view's
   * entry, kick out the holder of the new view, and point by_view at id.
   */
  method ClaimViewStep(records: map<ActivityId, ActivityData>, views: map<nat, ActivityId>, id: ActivityId, k0: nat, k: nat)
    returns (records': map<ActivityId, ActivityData>, views': map<nat, ActivityId>)
    requires k != 0 && k != k0 && k in views ==> views[k] in records
    ensures views' == Claimed(views, id, k0, k)
    ensures records' == Kicked(records, views, if k != k0 then k else 0)
  {
    records', views' := records, views;
    if k != k0 {
      if k0 != 0 {
        views' := views' - {k0};
      }
      if k != 0 {
        if k in views' {
          var holder := views'[k];
          records' := records'[holder := records'[holder].(view := 0, oldView := 0)];
        }
        views' := views'[k := id];
      }
    }
  }

  /** The tables after save, computed section by section as the source does. */
  method SaveStep(nextId: ActivityId, byId: map<ActivityId, ActivityData>,
    byNode: map<nat, ActivityId>, byEdge: map<nat, ActivityId>, byView: map<nat, ActivityId>, id: ActivityId, d: ActivityData)
    returns (records: map<ActivityId, ActivityData>, nodes: map<nat, ActivityId>, edges: map<nat, ActivityId>, views: map<nat, ActivityId>)
    requires Consistent(nextId, byId, byNode, byEdge, byView) && id in byId
    requires d.oldNode == byId[id].oldNode && d.oldNodelessEdge == byId[id].oldNodelessEdge && d.oldView == byId[id].oldView
    requires d.node != d.oldNode && d.node != 0 ==> d.node !in byNode
    requires NodelessEdge(d) != d.oldNodelessEdge && NodelessEdge(d) != 0 ==> NodelessEdge(d) !in byEdge
    ensures Consistent(nextId, records, nodes, edges, views)
    ensures records == Kicked(byId, byView, if d.view != d.oldView then d.view else 0)[id := Saved(d)]
    ensures nodes == Reindexed(byNode, id, d.oldNode, d.node)
    ensures edges == Reindexed(byEdge, id, d.oldNodelessEdge, NodelessEdge(d))
    ensures views == Claimed(byView, id, d.oldView, d.view)
  {
    SaveKeeps(nextId, byId, byNode, byEdge, byView, id, d);
    if d.view != 0 && d.view in byView {
      Owner(ByView, byId, byView, d.view);
    }
    nodes := ReindexStep(byNode, id, d.oldNode, d.node);
    edges := ReindexStep(byEdge, id, d.oldNodelessEdge, NodelessEdge(d));
    records, views := ClaimViewStep(byId, byView, id, d.oldView, d.view);
    records := records[id := Saved(d)];
  }

  /** The tables after create: next_id's record entered in every index it names. */
  method CreateStep(nextId: ActivityId, byId: map<ActivityId, ActivityData>,
    byNode: map<nat, ActivityId>, byEdge: map<nat, ActivityId>, byView: map<nat, ActivityId>, d: ActivityData)
    returns (records: map<ActivityId, ActivityData>, nodes: map<nat, ActivityId>, edges: map<nat, ActivityId>, views: map<nat, ActivityId>)
    requires Consistent(nextId, byId, byNode, byEdge, byView)
    requires d.node != 0 ==> d.node !in byNode
    requires NodelessEdge(d) != 0 ==> NodelessEdge(d) !in byEdge
    ensures Consistent(nextId + 1, records, nodes, edges, views) && nextId !in byId
    ensures records == Kicked(byId, byView, d.view)[nextId := Saved(d)]
    ensures nodes == Claimed(byNode, nextId, 0, d.node)
    ensures edges == Claimed(byEdge, nextId, 0, NodelessEdge(d))
    ensures views == Claimed(byView, nextId, 0, d.view)
  {
    CreateKeeps(nextId, byId, byNode, byEdge, byView, d);
    assert SavedAt(byId, nextId, nextId);
    if d.view != 0 && d.view in byView {
      Owner(ByView, byId, byView, d.view);
    }
    nodes, edges := byNode, byEdge;
    if d.node != 0 {
      nodes := nodes[d.node := nextId];
    } else if d.edge != 0 {
      edges := edges[d.edge := nextId];
    }
    records, views := ClaimViewStep(byId, byView, nextId, 0, d.view);
    records := records[nextId := Saved(d)];
  }

  class ActivityModel {
    var nextId: ActivityId
    var byId: map<ActivityId, ActivityData>
    var byNode: map<NodeId, ActivityId>
    var byNodelessEdge: map<EdgeId, ActivityId>
    var byView: map<ViewId, ActivityId>
    /** The activities of the current update (touch). */
    var updated: set<ActivityId>

    ghost predicate Valid()
      reads this
    {
      Consistent(nextId, byId, byNode, byNodelessEdge, byView)
    }

    constructor ()
      ensures Valid() && byId == map[] && updated == {} && nextId == 1
    {
      nextId := 1;
      byId := map[];
      byNode := map[];
      byNodelessEdge := map[];
      byView := map[];
      updated := {};
    }

    /** get_activity_for_edge: by the edge's to_node if it has one, else by the nodeless edge; 0 if none. */
    function ActivityForEdge(edge: EdgeId, toNode: NodeId): (id: ActivityId)
      requires Valid() && edge != 0
      reads this
      ensures id != 0 ==> id in byId && (if toNode != 0 then byId[id].node == toNode else byId[id].node == 0 && byId[id].edge == edge)
      ensures id == 0 ==> forall a :: a in byId ==>
        (if toNode != 0 then Key(ByNode, byId[a]) != toNode else Key(ByNodelessEdge, byId[a]) != edge)
    {
      if toNode != 0 then
        if toNode in byNode then
          Owner(ByNode, byId, byNode, toNode); assert SavedAt(byId, nextId, byNode[toNode]); byNode[toNode]
        else NoOwner(ByNode, byId, byNode, toNode); 0
      else if edge in byNodelessEdge then
        Owner(ByNodelessEdge, byId, byNodelessEdge, edge); assert SavedAt(byId, nextId, byNodelessEdge[edge]); byNodelessEdge[edge]
      else NoOwner(ByNodelessEdge, byId, byNodelessEdge, edge); 0
    }

    /**
     * create: the activity gets next_id, is entered in by_node or
     * by_nodeless_edge (which must not hold the key yet), and claims its
     * view, whose previous holder loses it.
     */
    method Create(d: ActivityData) returns (id: ActivityId)
      requires Valid() && d.oldNode == 0 && d.oldNodelessEdge == 0 && d.oldView == 0
      requires d.node != 0 ==> d.node !in byNode
      requires NodelessEdge(d) != 0 ==> NodelessEdge(d) !in byNodelessEdge
      modifies this
      ensures Valid() && id == old(nextId) && id !in old(byId) && nextId == id + 1
      ensures byId == Kicked(old(byId), old(byView), d.view)[id := Saved(d)]
      ensures byNode == Claimed(old(byNode), id, 0, d.node)
      ensures byNodelessEdge == Claimed(old(byNodelessEdge), id, 0, NodelessEdge(d))
      ensures byView == Claimed(old(byView), id, 0, d.view)
      ensures updated == old(updated) + {id}
    {
      id := nextId;
      byId, byNode, byNodelessEdge, byView := CreateStep(nextId, byId, byNode, byNodelessEdge, byView, d);
      nextId := id + 1;
      updated := updated + {id};
    }

    /**
     * save, with the view rule of create: an activity whose fields changed
     * is re-indexed, erasing the entries its old_* fields name, and one
     * taking another's view kicks that one out. d is the record after its
     * fields were set, so its old_* fields are the stored ones.
     */
    method Save(id: ActivityId, d: ActivityData)
      requires Valid() && id in byId
      requires d.oldNode == byId[id].oldNode && d.oldNodelessEdge == byId[id].oldNodelessEdge && d.oldView == byId[id].oldView
      requires d.node != d.oldNode && d.node != 0 ==> d.node !in byNode
      requires NodelessEdge(d) != d.oldNodelessEdge && NodelessEdge(d) != 0 ==> NodelessEdge(d) !in byNodelessEdge
      modifies this
      ensures Valid() && nextId == old(nextId) && updated == old(updated) + {id}
      ensures byId == Kicked(old(byId), old(byView), if d.view != d.oldView then d.view else 0)[id := Saved(d)]
      ensures byNode == Reindexed(old(byNode), id, d.oldNode, d.node)
      ensures byNodelessEdge == Reindexed(old(byNodelessEdge), id, d.oldNodelessEdge, NodelessEdge(d))
      ensures byView == Claimed(old(byView), id, d.oldView, d.view)
    {
      byId, byNode, byNodelessEdge, byView := SaveStep(nextId, byId, byNode, byNodelessEdge, byView, id, d);
      updated := updated + {id};
    }

    /**
     * focus_activity_for_tab: for an edge whose to_node is toNode, the
     * node's activity takes the edge and the view, or a new one is created,
     * loading from now; for an edge without a node nothing happens.
     */
    method FocusActivityForTab(view: ViewId, edge: EdgeId, toNode: NodeId, now: int)
      requires Valid() && view != 0 && edge != 0 && now > 0
      modifies this
      ensures Valid()
      ensures toNode == 0 ==> byId == old(byId) && byNode == old(byNode) && byView == old(byView) && nextId == old(nextId)
      ensures toNode != 0 ==> toNode in byNode && byNode[toNode] in byId
      ensures toNode != 0 ==> var d := byId[byNode[toNode]]; d.edge == edge && d.view == view
      ensures toNode != 0 && toNode in old(byNode) ==> var id := old(byNode)[toNode];
        id in old(byId) && byNode[toNode] == id && nextId == old(nextId)
        && byId == Kicked(old(byId), old(byView), if old(byId)[id].view != view then view else 0)[id := Saved(old(byId)[id].(edge := edge, view := view))]
      ensures toNode != 0 && toNode !in old(byNode) ==>
        nextId == old(nextId) + 1 && byNode[toNode] == old(nextId)
        && byId == Kicked(old(byId), old(byView), view)[old(nextId) := Saved(NewData(toNode, edge, view, now, ""))]
      ensures toNode == 0 ==> updated == old(updated)
      ensures toNode != 0 ==> updated == old(updated) + {byNode[toNode]}
    {
      if toNode != 0 {
        if toNode in byNode {
          Owner(ByNode, byId, byNode, toNode);
          var id := byNode[toNode];
          assert SavedAt(byId, nextId, id);
          Save(id, byId[id].(edge := edge, view := view));
        } else {
          var id := Create(NewData(toNode, edge, view, now, ""));
        }
      }
    }

    /** reload: reloading is set and loading_at becomes now; the indices do not change. */
    method Reload(id: ActivityId, now: int)
      requires Valid() && id in byId && now > 0
      modifies this
      ensures Valid() && byId == old(byId)[id := old(byId)[id].(reloading := true, loadingAt := now)]
      ensures byNode == old(byNode) && byNodelessEdge == old(byNodelessEdge) && byView == old(byView)
    {
      assert SavedAt(byId, nextId, id);
      Save(id, byId[id].(reloading := true, loadingAt := now));
    }

    /** finished_loading: loading_address, reloading and loading_at are cleared. */
    method FinishedLoading(id: ActivityId)
      requires Valid() && id in byId
      modifies this
      ensures Valid() && byId == old(byId)[id := old(byId)[id].(loadingAddress := "", reloading := false, loadingAt := 0)]
      ensures byNode == old(byNode) && byNodelessEdge == old(byNodelessEdge) && byView == old(byView)
    {
      assert SavedAt(byId, nextId, id);
      Save(id, byId[id].(loadingAddress := "", reloading := false, loadingAt := 0));
    }

    /** delete_activity: the id leaves by_id and every index its old_* fields name. */
    method DeleteActivity(id: ActivityId)
      requires Valid() && id in byId
      modifies this
      ensures Valid() && byId == old(byId) - {id} && nextId == old(nextId)
      ensures byNode == Erased(old(byNode), old(byId)[id].oldNode)
      ensures byNodelessEdge == Erased(old(byNodelessEdge), old(byId)[id].oldNodelessEdge)
      ensures byView == Erased(old(byView), old(byId)[id].oldView)
      ensures updated == old(updated) + {id}
    {
      var d := byId[id];
      DeleteKeeps(nextId, byId, byNode, byNodelessEdge, byView, id);
      var nodes: map<NodeId, ActivityId>, edges: map<EdgeId, ActivityId>, views: map<ViewId, ActivityId>
        := byNode, byNodelessEdge, byView;
      if d.oldNode != 0 {
        nodes := nodes - {d.oldNode};
      }
      if d.oldNodelessEdge != 0 {
        edges := edges - {d.oldNodelessEdge};
      }
      if d.oldView != 0 {
        views := views - {d.oldView};
      }
      byId, byNode, byNodelessEdge, byView := byId - {id}, nodes, edges, views;
      updated := updated + {id};
    }

    /**
     * move_activity: an activity already on node is deleted, then the
     * activity takes node and edge.
     */
    method MoveActivity(id: ActivityId, node: NodeId, edge: EdgeId)
      requires Valid() && id in byId && node != 0 && byId[id].node != node
      modifies this
      ensures Valid() && id in byId && node in byNode && byNode[node] == id
      ensures byId[id] == Saved(old(byId)[id].(node := node, edge := edge))
      ensures node in old(byNode) ==> byId == old(byId)[id := byId[id]] - {old(byNode)[node]}
      ensures node !in old(byNode) ==> byId == old(byId)[id := byId[id]]
      ensures node in old(byNode) ==> updated == old(updated) + {old(byNode)[node], id}
      ensures node !in old(byNode) ==> updated == old(updated) + {id}
    {
      assert SavedAt(byId, nextId, id);
      if node in byNode {
        Owner(ByNode, byId, byNode, node);
        var existing := byNode[node];
        assert SavedAt(byId, nextId, existing);
        DeleteActivity(existing);
      }
      assert SavedAt(byId, nextId, id);
      var d := byId[id].(node := node, edge := edge);
      Save(id, d);
    }

    /**
     * url_changed: an activity without a node takes newNode, the node
     * ensure_node_with_url gives for url; otherwise it stays for its own
     * URL, or moves to the parent node, to the last child edge whose node
     * has url, or to newNode under newEdge, the new last child.
     */
    method UrlChanged(id: ActivityId, url: string, w: World, children: seq<EdgeId>, newNode: NodeId, newEdge: EdgeId)
      returns (m: UrlMove)
      requires Valid() && id in byId && url != []
      requires newNode != 0 && newNode in w.nodeUrl && w.nodeUrl[newNode] == url
      requires byId[id].node == 0 ==> byId[id].edge != 0 && newNode !in byNode
      requires byId[id].node != 0 ==> byId[id].node in w.nodeUrl
      requires byId[id].node != 0 && byId[id].edge != 0 ==>
        byId[id].edge in w.edgeFrom && w.edgeFrom[byId[id].edge] != 0 && w.edgeFrom[byId[id].edge] in w.nodeUrl
      requires forall i :: 0 <= i < |children| ==> children[i] in w.edgeTo
      requires forall i :: 0 <= i < |children| && w.edgeTo[children[i]] != 0 ==> w.edgeTo[children[i]] in w.nodeUrl
      modifies this
      ensures Valid() && id in byId
      ensures old(byId)[id].node == 0 ==> m == NodeAssigned(newNode)
      ensures old(byId)[id].node != 0 ==> m == UrlTarget(old(byId)[id], url, w, children, newNode, newEdge)
      ensures m.SameUrl? ==> byId == old(byId) && byNode == old(byNode) && byView == old(byView)
      ensures m.NodeAssigned? ==> byId == old(byId)[id := Saved(old(byId)[id].(node := m.node))]
      ensures m.ToParent? || m.ToChild? || m.ToNewChild? ==> byId[id] == Saved(old(byId)[id].(node := m.node, edge := m.Edge()))
      ensures (m.ToParent? || m.ToChild? || m.ToNewChild?) && m.node in old(byNode) ==>
        byId == old(byId)[id := byId[id]] - {old(byNode)[m.node]}
      ensures (m.ToParent? || m.ToChild? || m.ToNewChild?) && m.node !in old(byNode) ==> byId == old(byId)[id := byId[id]]
      ensures !m.SameUrl? ==> byId[id].node in byNode && byNode[byId[id].node] == id
    {
      var d := byId[id];
      assert SavedAt(byId, nextId, id);
      if d.node == 0 {
        Save(id, d.(node := newNode));
        return NodeAssigned(newNode);
      }
      if w.nodeUrl[d.node] == url {
        return SameUrl;
      } else if d.edge != 0 {
        var parent := w.edgeFrom[d.edge];
        if w.nodeUrl[parent] == url {
          MoveActivity(id, parent, 0);
          return ToParent(parent);
        }
      }
      var i := |children|;
      while i != 0
        invariant 0 <= i <= |children|
        invariant LastChildWithUrl(children, w, url, |children|) == LastChildWithUrl(children, w, url, i)
        invariant unchanged(this)
      {
        var child := children[i - 1];
        var childNode := w.edgeTo[child];
        if childNode != 0 && w.nodeUrl[childNode] == url {
          MoveActivity(id, childNode, child);
          return ToChild(childNode, child);
        }
        i := i - 1;
      }
      MoveActivity(id, newNode, newEdge);
      m := ToNewChild(newNode, newEdge);
    }
  }

  // ------------------------------------------------------------ save as written

  /**
   * Activity 1 (node 4) has view 1 and activity 2 (node 5) has none.
   * Focusing activity 2's tab in view 1 saves it with view 1; the emplace
   * into by_view fails silently, so by_view still names activity 1, which
   * also keeps the view, and the index no longer says which activity has
   * view 1. Deleting activity 2 then erases activity 1's entry. The
   * corrected save kicks activity 1 out, as ClaimView shows.
   */
  lemma ByViewEmplaceIgnored(byId: map<ActivityId, ActivityData>, byView: map<nat, ActivityId>)
    requires byId == map[1 := Saved(NewData(4, 9, 1, 0, "")), 2 := Saved(NewData(5, 8, 0, 0, ""))]
    requires byView == map[1 := 1]
    ensures Indexed(ByView, byId, byView)
    ensures var d2 := byId[2].(edge := 7, view := 1);
      var byView' := Reindexed(byView, 2, d2.oldView, d2.view);
      var byId' := byId[2 := Saved(d2)];
      !Indexed(ByView, byId', byView') && byView'[1] == 1 && byId'[1].view == 1 && byId'[2].view == 1
      && 1 !in Erased(byView', byId'[2].oldView) && byId'[1].view == 1
  {
    var d2 := byId[2].(edge := 7, view := 1);
    var byView' := Reindexed(byView, 2, d2.oldView, d2.view);
    assert byView' == byView;
    var byId' := byId[2 := Saved(d2)];
    assert byId'[2].view == 1 && byView'[1] != 2;
    assert Key(ByView, byId'[2]) == 1;
    assert !BackAt(ByView, byId', byView', 2);
  }
}
