/**
 * The win32app revision of the tab tree: its top tabs are the out-edges of
 * the tree's root node, a tab's flags come from its edge, the edge's node
 * and the activity for the edge, and a tab is sent to the shell as a JSON
 * array.
 */
module WinTabs {
  import opened Wrappers
  import TabTree
  import Bifractor
  import JsString

  type EdgeId = TabTree.EdgeId
  type NodeId = TabTree.NodeId

  /** The fields of an edge the tabs read; timestamps are zero when unset. */
  datatype EdgeInfo = EdgeInfo(toNode: NodeId, title: string, position: Bifractor.Key, trashedAt: int)

  /** The fields of a node the tabs read. */
  datatype NodeInfo = NodeInfo(url: string, faviconUrl: string, title: string, visitedAt: int, starredAt: int)

  /**
   * The part of the model the tabs read: edges, nodes, each node's
   * out-edges in position order, and, for each edge that has an activity,
   * that activity's loading_at.
   */
  datatype Model = Model(
    edges: map<EdgeId, EdgeInfo>,
    nodes: map<NodeId, NodeInfo>,
    children: map<NodeId, seq<EdgeId>>,
    activityLoadingAt: map<EdgeId, int>)

  /** The tree (window) whose tabs are shown. */
  datatype TreeData = TreeData(rootNode: NodeId, focusedTab: EdgeId, expandedTabs: set<EdgeId>)

  /** An edge or node the model lacks reads as all zeros. */
  function EdgeOf(m: Model, e: EdgeId): EdgeInfo {
    if e in m.edges then m.edges[e] else EdgeInfo(0, "", [], 0)
  }

  function NodeOf(m: Model, n: NodeId): NodeInfo {
    if n in m.nodes then m.nodes[n] else NodeInfo("", "", "", 0, 0)
  }

  function GraphOf(m: Model, tree: TreeData): TabTree.Graph {
    TabTree.Graph(m.children, map e | e in m.edges :: m.edges[e].toNode, tree.expandedTabs)
  }

  /**
   * The flags of the tab for edge e. An edge with a node is loading or
   * loaded according to its activity, and may be visited, starred or
   * expandable; a nodeless edge is loading whenever it has an activity.
   */
  function Flags(m: Model, tree: TreeData, e: EdgeId): TabTree.FlagSet {
    var d := EdgeOf(m, e);
    var hasActivity := e in m.activityLoadingAt;
    if d.toNode != 0 then
      var nd := NodeOf(m, d.toNode);
      TabTree.FlagSet(
        focused := tree.focusedTab == e,
        visited := nd.visitedAt != 0,
        loading := hasActivity && m.activityLoadingAt[e] != 0,
        loaded := hasActivity && m.activityLoadingAt[e] == 0,
        trashed := d.trashedAt != 0,
        expandable := |TabTree.Kids(GraphOf(m, tree), d.toNode)| > 0,
        expanded := e in tree.expandedTabs,
        starred := nd.starredAt != 0)
    else
      TabTree.FlagSet(
        focused := tree.focusedTab == e,
        visited := false,
        loading := hasActivity,
        loaded := false,
        trashed := d.trashedAt != 0,
        expandable := false,
        expanded := e in tree.expandedTabs,
        starred := false)
  }

  /** The flag word of each edge's tab, as the walk computes it. */
  function FlagsOf(m: Model, tree: TreeData): (EdgeId, NodeId) -> nat {
    (e: EdgeId, n: NodeId) => TabTree.Bits(Flags(m, tree, e))
  }

  /** The tree of tabs for a tree: a walk from each out-edge of its root node, under edge 0. */
  ghost function TabTreeOf(m: Model, tree: TreeData, rank: map<NodeId, nat>): TabTree.Tabs
    requires TabTree.Ranked(GraphOf(m, tree), rank) && tree.rootNode in rank
  {
    var g := GraphOf(m, tree);
    TabTree.GenAll(g, rank, FlagsOf(m, tree), map[], tree.rootNode, TabTree.Kids(g, tree.rootNode), 0)
  }

  /**
   * Builds the tabs of a tree by visiting each out-edge of its root node in
   * order. The walk has no visited set, so it ends only because the ranking
   * shows no cycle of expanded edges is reachable.
   */
  method CreateTabTree(m: Model, tree: TreeData, ghost rank: map<NodeId, nat>) returns (r: TabTree.Tabs)
    requires TabTree.Ranked(GraphOf(m, tree), rank) && tree.rootNode in rank
    ensures r == TabTreeOf(m, tree, rank)
  {
    var g := GraphOf(m, tree);
    var flagsOf := FlagsOf(m, tree);
    var topEdges := TabTree.Kids(g, tree.rootNode);
    r := map[];
    for i := 0 to |topEdges|
      invariant r == TabTree.GenAll(g, rank, flagsOf, map[], tree.rootNode, topEdges[..i], 0)
    {
      var edge := topEdges[i];
      assert topEdges[..i + 1][..i] == topEdges[..i];
      assert edge in TabTree.Kids(g, tree.rootNode);
      r := TabTree.GenTabs(g, rank, flagsOf, r, edge, TabTree.To(g, edge), 0);
    }
    assert topEdges[..|topEdges|] == topEdges;
  }

  /**
   * The shape of the tab tree: each out-edge of the root node is a top tab
   * under edge 0; any other tab hangs under an expanded tab whose node lists
   * it; an expanded tab has every out-edge of its node in the tree; each tab
   * shows its edge's node and carries that edge's flags.
   */
  lemma TreeShape(m: Model, tree: TreeData, rank: map<NodeId, nat>)
    requires TabTree.WellFormed(GraphOf(m, tree))
    requires TabTree.Ranked(GraphOf(m, tree), rank) && tree.rootNode in rank
    ensures var g := GraphOf(m, tree);
      var r := TabTreeOf(m, tree, rank);
      (forall e :: e in TabTree.Kids(g, tree.rootNode) ==> e in r && r[e].parent == 0) &&
      (forall k :: k in r ==>
        r[k].node == EdgeOf(m, k).toNode && r[k].flags == TabTree.Bits(Flags(m, tree, k)) &&
        ((r[k].parent == 0 && k in TabTree.Kids(g, tree.rootNode)) ||
         (r[k].parent in r && r[k].parent in tree.expandedTabs && k in TabTree.Kids(g, EdgeOf(m, r[k].parent).toNode)))) &&
      (forall q, c :: (q in r && q in tree.expandedTabs && c in TabTree.Kids(g, EdgeOf(m, q).toNode)) ==> c in r)
  {
    var g := GraphOf(m, tree);
    TabTree.TopLevelTree(g, rank, FlagsOf(m, tree), tree.rootNode);
    assert forall e :: TabTree.To(g, e) == EdgeOf(m, e).toNode;
  }

  /**
   * What each tab's flag word says, read bit by bit: FOCUSED exactly for the
   * focused edge; LOADING and LOADED never both; EXPANDED exactly for an
   * expanded edge; a nodeless edge is LOADING exactly when it has an
   * activity and is never VISITED, LOADED, EXPANDABLE or STARRED; for an
   * edge with a node, LOADING and LOADED follow the activity's loading_at,
   * EXPANDABLE says the node has out-edges and STARRED that it is starred.
   */
  lemma FlagWord(m: Model, tree: TreeData, e: EdgeId)
    ensures var x := TabTree.Bits(Flags(m, tree, e));
      var d := EdgeOf(m, e);
      (TabTree.Bit(x, TabTree.FOCUSED) <==> tree.focusedTab == e) &&
      !(TabTree.Bit(x, TabTree.LOADING) && TabTree.Bit(x, TabTree.LOADED)) &&
      (TabTree.Bit(x, TabTree.EXPANDED) <==> e in tree.expandedTabs) &&
      (TabTree.Bit(x, TabTree.TRASHED) <==> d.trashedAt != 0) &&
      (d.toNode == 0 ==>
        (TabTree.Bit(x, TabTree.LOADING) <==> e in m.activityLoadingAt) &&
        !TabTree.Bit(x, TabTree.VISITED) && !TabTree.Bit(x, TabTree.LOADED) &&
        !TabTree.Bit(x, TabTree.EXPANDABLE) && !TabTree.Bit(x, TabTree.STARRED)) &&
      (d.toNode != 0 ==>
        (TabTree.Bit(x, TabTree.LOADING) <==> e in m.activityLoadingAt && m.activityLoadingAt[e] != 0) &&
        (TabTree.Bit(x, TabTree.LOADED) <==> e in m.activityLoadingAt && m.activityLoadingAt[e] == 0) &&
        (TabTree.Bit(x, TabTree.VISITED) <==> NodeOf(m, d.toNode).visitedAt != 0) &&
        (TabTree.Bit(x, TabTree.EXPANDABLE) <==> d.toNode in m.children && |m.children[d.toNode]| > 0) &&
        (TabTree.Bit(x, TabTree.STARRED) <==> NodeOf(m, d.toNode).starredAt != 0))
  {
    TabTree.DecodeBits(Flags(m, tree, e));
  }

  // ------------------------------------------------------------ STARRED

  /**
   * The flags as the declared flag enum can carry them: it has no STARRED,
   * so whatever the node's starred_at, no bit of the word says so.
   */
  function DeclaredFlags(m: Model, tree: TreeData, e: EdgeId): TabTree.FlagSet {
    Flags(m, tree, e).(starred := false)
  }

  /** A model with one top edge to one node, starred or not. */
  function OneStar(starredAt: int): Model {
    Model(map[1 := EdgeInfo(1, "", [0x80], 0)], map[1 := NodeInfo("a", "", "", 0, starredAt)], map[], map[])
  }

  /** With only the declared flags, a starred tab and an unstarred one send the same word. */
  lemma StarNotCarried()
    ensures TabTree.Bits(DeclaredFlags(OneStar(5), TreeData(0, 0, {}), 1))
         == TabTree.Bits(DeclaredFlags(OneStar(0), TreeData(0, 0, {}), 1))
    ensures NodeOf(OneStar(5), 1).starredAt != NodeOf(OneStar(0), 1).starredAt
  {
  }

  /** With STARRED as bit 7, the word tells the two apart. */
  lemma StarCarried()
    ensures TabTree.Bits(Flags(OneStar(5), TreeData(0, 0, {}), 1))
         != TabTree.Bits(Flags(OneStar(0), TreeData(0, 0, {}), 1))
  {
    FlagWord(OneStar(5), TreeData(0, 0, {}), 1);
    FlagWord(OneStar(0), TreeData(0, 0, {}), 1);
  }

  // ------------------------------------------------------------ JSON

  /** One element of the JSON array a tab is sent as. */
  datatype Cell = Int(i: int) | Str(s: string)

  /** The title shown: the node's, else the edge's, else the node's URL. */
  function Title(nd: NodeInfo, d: EdgeInfo): string {
    if nd.title != "" then nd.title else if d.title != "" then d.title else nd.url
  }

  /**
   * The JSON array for one tab: just the edge id when the edge is missing
   * or there is no tab; otherwise edge, parent, position in hex, URL,
   * favicon URL, title and flags, with empty strings for a nodeless tab.
   */
  function TabJson(m: Model, edge: EdgeId, tab: Option<TabTree.Tab>): seq<Cell> {
    if edge !in m.edges || tab.None? then [Int(edge)]
    else
      var d := m.edges[edge];
      var t := tab.value;
      var pos := Str(Bifractor.HexOf(d.position));
      if t.node != 0 then
        var nd := NodeOf(m, t.node);
        [Int(edge), Int(t.parent), pos, Str(nd.url), Str(nd.faviconUrl), Str(Title(nd, d)), Int(t.flags)]
      else
        [Int(edge), Int(t.parent), pos, Str(""), Str(""), Str(""), Int(t.flags)]
  }

  /**
   * The array has one element exactly when the edge is missing or there is
   * no tab; a full array carries the tab's parent and flags, a title that is
   * empty only when the node title, edge title and URL all are, and the
   * position's hex form, which sorts as the positions do.
   */
  lemma TabJsonShape(m: Model, edge: EdgeId, tab: Option<TabTree.Tab>, other: EdgeId, otherTab: Option<TabTree.Tab>)
    ensures |TabJson(m, edge, tab)| == 1 <==> edge !in m.edges || tab.None?
    ensures TabJson(m, edge, tab)[0] == Int(edge)
    ensures |TabJson(m, edge, tab)| != 1 ==>
      var r := TabJson(m, edge, tab);
      |r| == 7 && r[1] == Int(tab.value.parent) && r[6] == Int(tab.value.flags) &&
      (tab.value.node == 0 ==> r[3] == Str("") && r[4] == Str("") && r[5] == Str("")) &&
      (tab.value.node != 0 ==>
        var nd := NodeOf(m, tab.value.node);
        r[3] == Str(nd.url) &&
        (r[5].s == "" <==> nd.title == "" && m.edges[edge].title == "" && nd.url == "") &&
        (r[5].s == nd.title || r[5].s == m.edges[edge].title || r[5].s == nd.url))
    ensures |TabJson(m, edge, tab)| != 1 && |TabJson(m, other, otherTab)| != 1 ==>
      (Bifractor.Less(m.edges[edge].position, m.edges[other].position) <==>
       JsString.StrLess(TabJson(m, edge, tab)[2].s, TabJson(m, other, otherTab)[2].s))
  {
    if edge in m.edges && other in m.edges {
      Bifractor.HexOrder(m.edges[edge].position, m.edges[other].position);
    }
  }
}
