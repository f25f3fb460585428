/**
 * The page/link revision of the tab tree: the walk starts at the view's
 * root page under the null link 0; LOADING and LOADED come from whether the
 * page's activity is currently loading, and a removal is sent as the empty
 * tab.
 */
module PageTabs {
  import TabTree

  type LinkId = TabTree.EdgeId
  type PageId = TabTree.NodeId

  datatype LinkInfo = LinkInfo(toPage: PageId, trashedAt: int)

  datatype PageInfo = PageInfo(visitedAt: int)

  /**
   * What the tabs read: links, pages, each page's out-links in order, and,
   * for each page that has an activity, whether it is currently loading.
   */
  datatype Data = Data(
    links: map<LinkId, LinkInfo>,
    pages: map<PageId, PageInfo>,
    children: map<PageId, seq<LinkId>>,
    currentlyLoading: map<PageId, bool>)

  datatype ViewData = ViewData(rootPage: PageId, focusedTab: LinkId, expandedTabs: set<LinkId>)

  function LinkOf(d: Data, l: LinkId): LinkInfo {
    if l in d.links then d.links[l] else LinkInfo(0, 0)
  }

  function PageOf(d: Data, p: PageId): PageInfo {
    if p in d.pages then d.pages[p] else PageInfo(0)
  }

  function GraphOf(d: Data, view: ViewData): TabTree.Graph {
    TabTree.Graph(d.children, map l | l in d.links :: d.links[l].toPage, view.expandedTabs)
  }

  /** The flags of the tab for link l showing page p; link 0 is never trashed. */
  function Flags(d: Data, view: ViewData, l: LinkId, p: PageId): TabTree.FlagSet {
    var hasActivity := p in d.currentlyLoading;
    TabTree.FlagSet(
      focused := view.focusedTab == l,
      visited := PageOf(d, p).visitedAt != 0,
      loading := hasActivity && d.currentlyLoading[p],
      loaded := hasActivity && !d.currentlyLoading[p],
      trashed := l != 0 && LinkOf(d, l).trashedAt != 0,
      expandable := |TabTree.Kids(GraphOf(d, view), p)| > 0,
      expanded := l in view.expandedTabs,
      starred := false)
  }

  function FlagsOf(d: Data, view: ViewData): (LinkId, PageId) -> nat {
    (l: LinkId, p: PageId) => TabTree.Bits(Flags(d, view, l, p))
  }

  ghost function TabTreeOf(d: Data, view: ViewData, rank: map<PageId, nat>): TabTree.Tabs
    requires TabTree.Ranked(GraphOf(d, view), rank)
    requires 0 in view.expandedTabs ==> view.rootPage in rank
  {
    TabTree.Gen(GraphOf(d, view), rank, FlagsOf(d, view), map[], 0, view.rootPage, 0)
  }

  /** Builds the tabs of a view by one walk from the null link 0 showing the root page. */
  method CreateTabTree(d: Data, view: ViewData, ghost rank: map<PageId, nat>) returns (r: TabTree.Tabs)
    requires TabTree.Ranked(GraphOf(d, view), rank)
    requires 0 in view.expandedTabs ==> view.rootPage in rank
    ensures r == TabTreeOf(d, view, rank)
  {
    r := TabTree.GenTabs(GraphOf(d, view), rank, FlagsOf(d, view), map[], 0, view.rootPage, 0);
  }

  /**
   * The shape of the tab tree: the root page is the tab for link 0 under 0;
   * every other tab shows its link's page and hangs under an expanded tab
   * whose page lists it; an expanded tab has every out-link of its page in
   * the tree.
   */
  lemma TreeShape(d: Data, view: ViewData, rank: map<PageId, nat>)
    requires TabTree.WellFormed(GraphOf(d, view)) && TabTree.Ranked(GraphOf(d, view), rank)
    requires 0 in view.expandedTabs ==> view.rootPage in rank
    ensures var g := GraphOf(d, view);
      var r := TabTreeOf(d, view, rank);
      0 in r && r[0].node == view.rootPage && r[0].parent == 0 &&
      (forall k :: k in r ==> r[k].flags == TabTree.Bits(Flags(d, view, k, r[k].node))) &&
      (forall k :: k in r && k != 0 ==>
        r[k].node == LinkOf(d, k).toPage && r[k].parent in r && r[k].parent in view.expandedTabs &&
        k in TabTree.Kids(g, r[r[k].parent].node)) &&
      (forall q, c :: (q in r && q in view.expandedTabs && c in TabTree.Kids(g, r[q].node)) ==> c in r)
  {
    var g := GraphOf(d, view);
    var r := TabTreeOf(d, view, rank);
    TabTree.RootedTree(g, rank, FlagsOf(d, view), view.rootPage);
    assert forall l :: TabTree.To(g, l) == LinkOf(d, l).toPage;
    assert forall q :: q in r ==> r[q].node == TabTree.NodeOf(g, 0, view.rootPage, q);
  }

  /**
   * What each tab's flag word says: FOCUSED exactly for the focused link;
   * LOADING exactly when the page's activity is loading and LOADED exactly
   * when it has one that is not, so never both; TRASHED only for a non-null
   * trashed link; EXPANDABLE exactly when the page has out-links; EXPANDED
   * exactly for an expanded link; never STARRED.
   */
  lemma FlagWord(d: Data, view: ViewData, l: LinkId, p: PageId)
    ensures var x := TabTree.Bits(Flags(d, view, l, p));
      (TabTree.Bit(x, TabTree.FOCUSED) <==> view.focusedTab == l) &&
      (TabTree.Bit(x, TabTree.VISITED) <==> PageOf(d, p).visitedAt != 0) &&
      (TabTree.Bit(x, TabTree.LOADING) <==> p in d.currentlyLoading && d.currentlyLoading[p]) &&
      (TabTree.Bit(x, TabTree.LOADED) <==> p in d.currentlyLoading && !d.currentlyLoading[p]) &&
      !(TabTree.Bit(x, TabTree.LOADING) && TabTree.Bit(x, TabTree.LOADED)) &&
      (TabTree.Bit(x, TabTree.TRASHED) <==> l != 0 && LinkOf(d, l).trashedAt != 0) &&
      (TabTree.Bit(x, TabTree.EXPANDABLE) <==> p != 0 && p in d.children && |d.children[p]| > 0) &&
      (TabTree.Bit(x, TabTree.EXPANDED) <==> l in view.expandedTabs) &&
      !TabTree.Bit(x, TabTree.STARRED)
  {
    TabTree.DecodeBits(Flags(d, view, l, p));
  }
}
