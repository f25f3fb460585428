/**
 * The model revision of the tab tree: the walk starts at the view's root
 * node under the null edge 0, so the root itself is a tab; LOADING and
 * LOADED come from the node's load state, and a removal is sent as the
 * empty tab.
 */
module ModelTabs {
  import TabTree

  type EdgeId = TabTree.EdgeId
  type NodeId = TabTree.NodeId

  datatype NodeState = Unloaded | Loading | Loaded

  datatype EdgeInfo = EdgeInfo(toNode: NodeId, trashedAt: int)

  datatype NodeInfo = NodeInfo(visitedAt: int, state: NodeState)

  /** The part of the model the tabs read: edges, nodes and each node's out-edges in position order. */
  datatype Model = Model(edges: map<EdgeId, EdgeInfo>, nodes: map<NodeId, NodeInfo>, children: map<NodeId, seq<EdgeId>>)

  datatype ViewData = ViewData(rootNode: NodeId, focusedTab: EdgeId, expandedTabs: set<EdgeId>)

  /** An edge or node the model lacks reads as all zeros. */
  function EdgeOf(m: Model, e: EdgeId): EdgeInfo {
    if e in m.edges then m.edges[e] else EdgeInfo(0, 0)
  }

  function NodeOf(m: Model, n: NodeId): NodeInfo {
    if n in m.nodes then m.nodes[n] else NodeInfo(0, Unloaded)
  }

  function GraphOf(m: Model, view: ViewData): TabTree.Graph {
    TabTree.Graph(m.children, map e | e in m.edges :: m.edges[e].toNode, view.expandedTabs)
  }

  /** The flags of the tab for edge e showing node n; edge 0 is never trashed. */
  function Flags(m: Model, view: ViewData, e: EdgeId, n: NodeId): TabTree.FlagSet {
    var nd := NodeOf(m, n);
    TabTree.FlagSet(
      focused := view.focusedTab == e,
      visited := nd.visitedAt != 0,
      loading := nd.state == Loading,
      loaded := nd.state == Loaded,
      trashed := e != 0 && EdgeOf(m, e).trashedAt != 0,
      expandable := |TabTree.Kids(GraphOf(m, view), n)| > 0,
      expanded := e in view.expandedTabs,
      starred := false)
  }

  function FlagsOf(m: Model, view: ViewData): (EdgeId, NodeId) -> nat {
    (e: EdgeId, n: NodeId) => TabTree.Bits(Flags(m, view, e, n))
  }

  ghost function TabTreeOf(m: Model, view: ViewData, rank: map<NodeId, nat>): TabTree.Tabs
    requires TabTree.Ranked(GraphOf(m, view), rank)
    requires 0 in view.expandedTabs ==> view.rootNode in rank
  {
    TabTree.Gen(GraphOf(m, view), rank, FlagsOf(m, view), map[], 0, view.rootNode, 0)
  }

  /** Builds the tabs of a view by one walk from the null edge 0 showing the root node. */
  method CreateTabTree(m: Model, view: ViewData, ghost rank: map<NodeId, nat>) returns (r: TabTree.Tabs)
    requires TabTree.Ranked(GraphOf(m, view), rank)
    requires 0 in view.expandedTabs ==> view.rootNode in rank
    ensures r == TabTreeOf(m, view, rank)
  {
    r := TabTree.GenTabs(GraphOf(m, view), rank, FlagsOf(m, view), map[], 0, view.rootNode, 0);
  }

  /**
   * The shape of the tab tree: the root is the tab for edge 0 under 0;
   * every other tab shows its edge's node and hangs under an expanded tab
   * whose node lists it (the root node for the root tab); an expanded tab
   * has every out-edge of its node in the tree.
   */
  lemma TreeShape(m: Model, view: ViewData, rank: map<NodeId, nat>)
    requires TabTree.WellFormed(GraphOf(m, view)) && TabTree.Ranked(GraphOf(m, view), rank)
    requires 0 in view.expandedTabs ==> view.rootNode in rank
    ensures var g := GraphOf(m, view);
      var r := TabTreeOf(m, view, rank);
      0 in r && r[0].node == view.rootNode && r[0].parent == 0 &&
      (forall k :: k in r ==> r[k].flags == TabTree.Bits(Flags(m, view, k, r[k].node))) &&
      (forall k :: k in r && k != 0 ==>
        r[k].node == EdgeOf(m, k).toNode && r[k].parent in r && r[k].parent in view.expandedTabs &&
        k in TabTree.Kids(g, r[r[k].parent].node)) &&
      (forall q, c :: (q in r && q in view.expandedTabs && c in TabTree.Kids(g, r[q].node)) ==> c in r)
  {
    var g := GraphOf(m, view);
    var r := TabTreeOf(m, view, rank);
    TabTree.RootedTree(g, rank, FlagsOf(m, view), view.rootNode);
    assert forall e :: TabTree.To(g, e) == EdgeOf(m, e).toNode;
    assert forall q :: q in r ==> r[q].node == TabTree.NodeOf(g, 0, view.rootNode, q);
  }

  /**
   * What each tab's flag word says: FOCUSED exactly for the focused edge;
   * LOADING and LOADED exactly for the node's load state, so never both;
   * TRASHED only for a non-null trashed edge; EXPANDABLE exactly when the
   * node has out-edges; EXPANDED exactly for an expanded edge; never STARRED.
   */
  lemma FlagWord(m: Model, view: ViewData, e: EdgeId, n: NodeId)
    ensures var x := TabTree.Bits(Flags(m, view, e, n));
      (TabTree.Bit(x, TabTree.FOCUSED) <==> view.focusedTab == e) &&
      (TabTree.Bit(x, TabTree.VISITED) <==> NodeOf(m, n).visitedAt != 0) &&
      (TabTree.Bit(x, TabTree.LOADING) <==> NodeOf(m, n).state == Loading) &&
      (TabTree.Bit(x, TabTree.LOADED) <==> NodeOf(m, n).state == Loaded) &&
      !(TabTree.Bit(x, TabTree.LOADING) && TabTree.Bit(x, TabTree.LOADED)) &&
      (TabTree.Bit(x, TabTree.TRASHED) <==> e != 0 && EdgeOf(m, e).trashedAt != 0) &&
      (TabTree.Bit(x, TabTree.EXPANDABLE) <==> n != 0 && n in m.children && |m.children[n]| > 0) &&
      (TabTree.Bit(x, TabTree.EXPANDED) <==> e in view.expandedTabs) &&
      !TabTree.Bit(x, TabTree.STARRED)
  {
    TabTree.DecodeBits(Flags(m, view, e, n));
  }
}
