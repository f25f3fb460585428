/**
 * The shadow tab tree the shell mirrors: a map from edge id to the node it
 * shows, the edge it hangs under and its flag word, built by walking the
 * expanded edges depth first, and the list of changes sent to the shell
 * when one tree replaces another.
 *
 * All three revisions of the tab code (win32app, model, and the older
 * page/link one) share this walk and this diff; they differ only in how a
 * tab's flags are computed and in where the walk starts, which their own
 * modules supply.
 */
module TabTree {
  import opened Wrappers

  type EdgeId = nat
  type NodeId = nat

  // ------------------------------------------------------------ flag words

  /** The flag bits a tab can carry, by their bit positions on the wire. */
  const FOCUSED: nat := 0     // 1
  const VISITED: nat := 1     // 2
  const LOADING: nat := 2     // 4
  const LOADED: nat := 3      // 8
  const TRASHED: nat := 4     // 16
  const EXPANDABLE: nat := 5  // 32
  const EXPANDED: nat := 6    // 64
  const STARRED: nat := 7     // 128

  /** The flag word as its separate bits. */
  datatype FlagSet = FlagSet(
    focused: bool, visited: bool, loading: bool, loaded: bool,
    trashed: bool, expandable: bool, expanded: bool, starred: bool)

  function B(b: bool): nat { if b then 1 else 0 }

  /** The flags in bit order, lowest first. */
  function Ordered(f: FlagSet): seq<bool> {
    [f.focused, f.visited, f.loading, f.loaded, f.trashed, f.expandable, f.expanded, f.starred]
  }

  /** The integer whose binary digits, lowest first, are the bits of s. */
  function Word(s: seq<bool>): nat {
    if s == [] then 0 else B(s[0]) + 2 * Word(s[1..])
  }

  /** The integer the flags travel as: each set flag contributes its power of two. */
  function Bits(f: FlagSet): nat {
    Word(Ordered(f))
  }

  /** Whether bit i of x is set, as `x & (1 << i)` tests it for x >= 0. */
  function Bit(x: nat, i: nat): bool
    decreases i
  {
    if i == 0 then x % 2 == 1 else Bit(x / 2, i - 1)
  }

  function Decode(x: nat): FlagSet {
    FlagSet(Bit(x, FOCUSED), Bit(x, VISITED), Bit(x, LOADING), Bit(x, LOADED),
            Bit(x, TRASHED), Bit(x, EXPANDABLE), Bit(x, EXPANDED), Bit(x, STARRED))
  }

  /** Bit i of a word is the i-th bit it was built from. */
  lemma {:induction false} WordBit(s: seq<bool>, i: nat)
    requires i < |s|
    ensures Bit(Word(s), i) == s[i]
    decreases i
  {
    var x := Word(s);
    assert x % 2 == B(s[0]) && x / 2 == Word(s[1..]);
    if i > 0 {
      WordBit(s[1..], i - 1);
    }
  }

  /** Reading each bit of the word gives back the flag it was built from. */
  lemma DecodeBits(f: FlagSet)
    ensures Decode(Bits(f)) == f
  {
    var s := Ordered(f);
    WordBit(s, 0); WordBit(s, 1); WordBit(s, 2); WordBit(s, 3);
    WordBit(s, 4); WordBit(s, 5); WordBit(s, 6); WordBit(s, 7);
  }

  /** Two flag sets travel as the same integer only when they are the same set. */
  lemma BitsInjective(f: FlagSet, h: FlagSet)
    ensures Bits(f) == Bits(h) <==> f == h
  {
    DecodeBits(f);
    DecodeBits(h);
  }

  // ------------------------------------------------------------ the tree

  /** One row of the shadow tree; the edge id that keys it is outside. */
  datatype Tab = Tab(node: NodeId, parent: EdgeId, flags: nat)

  type Tabs = map<EdgeId, Tab>

  /**
   * What the walk reads: the ordered out-edges of each node, the node each
   * edge leads to (0 when it leads nowhere yet) and the expanded edges.
   */
  datatype Graph = Graph(children: map<NodeId, seq<EdgeId>>, toNode: map<EdgeId, NodeId>, expanded: set<EdgeId>)

  /** The out-edges of n in position order; the null node 0 has none. */
  function Kids(g: Graph, n: NodeId): seq<EdgeId> {
    if n != 0 && n in g.children then g.children[n] else []
  }

  function To(g: Graph, e: EdgeId): NodeId {
    if e in g.toNode then g.toNode[e] else 0
  }

  /** Every edge is listed under at most one node, once, and no edge is the null edge 0. */
  predicate WellFormed(g: Graph) {
    (forall n, i :: n in g.children && 0 <= i < |g.children[n]| ==> g.children[n][i] != 0) &&
    (forall n, m, i, j ::
      (n in g.children && m in g.children && 0 <= i < |g.children[n]| && 0 <= j < |g.children[m]|
       && g.children[n][i] == g.children[m][j]) ==> n == m && i == j)
  }

  /**
   * The walk ends: every expanded out-edge of a ranked node leads to a node
   * of smaller rank. Such a rank exists exactly when no cycle of expanded
   * edges is reachable, which the walk itself does not check.
   */
  predicate Ranked(g: Graph, rank: map<NodeId, nat>) {
    forall n, c :: n in rank && c in Kids(g, n) && c in g.expanded ==> To(g, c) in rank && rank[To(g, c)] < rank[n]
  }

  function Height(g: Graph, rank: map<NodeId, nat>, e: EdgeId, n: NodeId): nat {
    if e in g.expanded && n in rank then rank[n] + 1 else 0
  }

  /**
   * The tree after visiting edge e, showing node n, under parent p, starting
   * from t: e is added unless already present, then, if e is expanded, each
   * out-edge of n is visited in order under e.
   */
  ghost function Gen(g: Graph, rank: map<NodeId, nat>, flagsOf: (EdgeId, NodeId) -> nat,
                     t: Tabs, e: EdgeId, n: NodeId, p: EdgeId): Tabs
    requires Ranked(g, rank) && (e in g.expanded ==> n in rank)
    decreases Height(g, rank, e, n), 1, 0
  {
    var t1 := if e in t then t else t[e := Tab(n, p, flagsOf(e, n))];
    if e in g.expanded then GenAll(g, rank, flagsOf, t1, n, Kids(g, n), e) else t1
  }

  /** The tree after visiting each edge of cs, in order, under parent p. */
  ghost function GenAll(g: Graph, rank: map<NodeId, nat>, flagsOf: (EdgeId, NodeId) -> nat,
                        t: Tabs, n: NodeId, cs: seq<EdgeId>, p: EdgeId): Tabs
    requires Ranked(g, rank) && n in rank && forall c :: c in cs ==> c in Kids(g, n)
    decreases rank[n] + 1, 0, |cs|
  {
    if cs == [] then t
    else
      var c := cs[|cs| - 1];
      Gen(g, rank, flagsOf, GenAll(g, rank, flagsOf, t, n, cs[..|cs| - 1], p), c, To(g, c), p)
  }

  /** The node the walk showed for edge q: n for the edge it started at, the edge's own target otherwise. */
  function NodeOf(g: Graph, e: EdgeId, n: NodeId, q: EdgeId): NodeId {
    if q == e then n else To(g, q)
  }

  /** Nothing already in t is replaced: insertion never overwrites. */
  predicate Keeps(t: Tabs, r: Tabs) {
    forall k :: k in t ==> k in r && r[k] == t[k]
  }

  /** k hangs under an edge of r that is expanded and whose node m lists k among its out-edges. */
  predicate Hung(g: Graph, rank: map<NodeId, nat>, r: Tabs, k: EdgeId, m: NodeId)
    requires k in r
  {
    r[k].parent in r && r[k].parent in g.expanded && k in Kids(g, m) && m in rank
  }

  /** How a tab new to r came to be there, for a walk started at e. */
  predicate FromStart(g: Graph, rank: map<NodeId, nat>, flagsOf: (EdgeId, NodeId) -> nat,
                      r: Tabs, e: EdgeId, n: NodeId, p: EdgeId, k: EdgeId)
    requires k in r
  {
    r[k].flags == flagsOf(k, r[k].node) &&
    if k == e then r[k].node == n && r[k].parent == p
    else
      k != 0 && r[k].node == To(g, k) && e in g.expanded && n in rank
      && (r[k].parent == e || r[k].parent != 0)
      && Hung(g, rank, r, k, NodeOf(g, e, n, r[k].parent))
      && rank[NodeOf(g, e, n, r[k].parent)] <= rank[n]
  }

  /** How a tab new to r came to be there, for a visit of the out-edges cs of n under p. */
  predicate FromKids(g: Graph, rank: map<NodeId, nat>, flagsOf: (EdgeId, NodeId) -> nat,
                     r: Tabs, n: NodeId, cs: seq<EdgeId>, p: EdgeId, k: EdgeId)
    requires k in r && n in rank
  {
    r[k].flags == flagsOf(k, r[k].node) && k != 0 && r[k].node == To(g, k) &&
    ((r[k].parent == p && k in cs) ||
     (r[k].parent != 0 && Hung(g, rank, r, k, To(g, r[k].parent)) && rank[To(g, r[k].parent)] < rank[n]))
  }

  lemma {:induction false} GenSpec(g: Graph, rank: map<NodeId, nat>, flagsOf: (EdgeId, NodeId) -> nat,
                                   t: Tabs, e: EdgeId, n: NodeId, p: EdgeId)
    requires WellFormed(g) && Ranked(g, rank) && (e in g.expanded ==> n in rank)
    requires e == 0 || n == To(g, e)
    ensures Keeps(t, Gen(g, rank, flagsOf, t, e, n, p))
    ensures e in Gen(g, rank, flagsOf, t, e, n, p)
    ensures forall k :: k in Gen(g, rank, flagsOf, t, e, n, p) && k !in t ==>
      FromStart(g, rank, flagsOf, Gen(g, rank, flagsOf, t, e, n, p), e, n, p, k)
    ensures forall q, c :: (q in Gen(g, rank, flagsOf, t, e, n, p) && (q !in t || q == e) && q in g.expanded
      && c in Kids(g, NodeOf(g, e, n, q))) ==> c in Gen(g, rank, flagsOf, t, e, n, p)
    decreases Height(g, rank, e, n), 1, 0
  {
    var t1 := if e in t then t else t[e := Tab(n, p, flagsOf(e, n))];
    var r := Gen(g, rank, flagsOf, t, e, n, p);
    if e in g.expanded {
      var cs := Kids(g, n);
      GenAllSpec(g, rank, flagsOf, t1, n, cs, e);
      assert r == GenAll(g, rank, flagsOf, t1, n, cs, e);
      forall k | k in r && k !in t
        ensures FromStart(g, rank, flagsOf, r, e, n, p, k)
      {
        if k != e {
          assert FromKids(g, rank, flagsOf, r, n, cs, e, k);
          var q := r[k].parent;
          if q == e {
            assert k in cs;
          } else {
            assert NodeOf(g, e, n, q) == To(g, q);
          }
        }
      }
      forall q, c | q in r && (q !in t || q == e) && q in g.expanded && c in Kids(g, NodeOf(g, e, n, q))
        ensures c in r
      {
        if q == e {
          assert c in cs;
        } else {
          assert NodeOf(g, e, n, q) == To(g, q);
        }
      }
    }
  }

  lemma {:induction false} GenAllSpec(g: Graph, rank: map<NodeId, nat>, flagsOf: (EdgeId, NodeId) -> nat,
                                      t: Tabs, n: NodeId, cs: seq<EdgeId>, p: EdgeId)
    requires WellFormed(g) && Ranked(g, rank) && n in rank && forall c :: c in cs ==> c in Kids(g, n)
    ensures Keeps(t, GenAll(g, rank, flagsOf, t, n, cs, p))
    ensures forall c :: c in cs ==> c in GenAll(g, rank, flagsOf, t, n, cs, p)
    ensures forall k :: k in GenAll(g, rank, flagsOf, t, n, cs, p) && k !in t ==>
      FromKids(g, rank, flagsOf, GenAll(g, rank, flagsOf, t, n, cs, p), n, cs, p, k)
    ensures forall q, c :: (q in GenAll(g, rank, flagsOf, t, n, cs, p) && q !in t && q in g.expanded
      && c in Kids(g, To(g, q))) ==> c in GenAll(g, rank, flagsOf, t, n, cs, p)
    decreases rank[n] + 1, 0, |cs|
  {
    if cs != [] {
      var front := cs[..|cs| - 1];
      var c := cs[|cs| - 1];
      assert forall x :: x in front ==> x in cs;
      var r0 := GenAll(g, rank, flagsOf, t, n, front, p);
      var r := Gen(g, rank, flagsOf, r0, c, To(g, c), p);
      assert c in Kids(g, n);
      GenAllSpec(g, rank, flagsOf, t, n, front, p);
      GenSpec(g, rank, flagsOf, r0, c, To(g, c), p);
      assert c != 0 by { KidNotNull(g, n, c); }
      forall k | k in r && k !in t
        ensures FromKids(g, rank, flagsOf, r, n, cs, p, k)
      {
        if k in r0 {
          assert FromKids(g, rank, flagsOf, r0, n, front, p, k);
        } else {
          assert FromStart(g, rank, flagsOf, r, c, To(g, c), p, k);
          if k != c {
            assert NodeOf(g, c, To(g, c), r[k].parent) == To(g, r[k].parent);
          }
        }
      }
      forall q, x | q in r && q !in t && q in g.expanded && x in Kids(g, To(g, q))
        ensures x in r
      {
        if q !in r0 {
          assert NodeOf(g, c, To(g, c), q) == To(g, q);
        }
      }
    }
  }

  lemma KidNotNull(g: Graph, n: NodeId, c: EdgeId)
    requires WellFormed(g) && c in Kids(g, n)
    ensures c != 0
  {
    var i :| 0 <= i < |Kids(g, n)| && Kids(g, n)[i] == c;
  }

  lemma KidsUnique(g: Graph, n: NodeId, m: NodeId, e: EdgeId)
    requires WellFormed(g) && e in Kids(g, n) && e in Kids(g, m)
    ensures n == m
  {
    var i :| 0 <= i < |Kids(g, n)| && Kids(g, n)[i] == e;
    var j :| 0 <= j < |Kids(g, m)| && Kids(g, m)[j] == e;
  }

  /**
   * A tree grown from the out-edges of root, each under the null edge 0:
   * every out-edge of root is a top tab under 0; every other tab hangs under
   * an expanded tab whose node lists it; every expanded tab has all the
   * out-edges of its node in the tree; each tab shows its edge's node.
   */
  lemma TopLevelTree(g: Graph, rank: map<NodeId, nat>, flagsOf: (EdgeId, NodeId) -> nat, root: NodeId)
    requires WellFormed(g) && Ranked(g, rank) && root in rank
    ensures forall e :: e in Kids(g, root) ==>
      e in GenAll(g, rank, flagsOf, map[], root, Kids(g, root), 0) && GenAll(g, rank, flagsOf, map[], root, Kids(g, root), 0)[e].parent == 0
    ensures forall k :: k in GenAll(g, rank, flagsOf, map[], root, Kids(g, root), 0) ==>
      var tab := GenAll(g, rank, flagsOf, map[], root, Kids(g, root), 0)[k];
      k != 0 && tab.node == To(g, k) && tab.flags == flagsOf(k, To(g, k)) &&
      ((tab.parent == 0 && k in Kids(g, root)) ||
       (tab.parent in GenAll(g, rank, flagsOf, map[], root, Kids(g, root), 0) && tab.parent in g.expanded && k in Kids(g, To(g, tab.parent))))
    ensures forall q, c ::
      (q in GenAll(g, rank, flagsOf, map[], root, Kids(g, root), 0) && q in g.expanded && c in Kids(g, To(g, q)))
      ==> c in GenAll(g, rank, flagsOf, map[], root, Kids(g, root), 0)
  {
    var top := Kids(g, root);
    var r := GenAll(g, rank, flagsOf, map[], root, top, 0);
    GenAllSpec(g, rank, flagsOf, map[], root, top, 0);
    forall e | e in top
      ensures r[e].parent == 0
    {
      assert FromKids(g, rank, flagsOf, r, root, top, 0, e);
      if r[e].parent != 0 {
        var q := r[e].parent;
        KidsUnique(g, root, To(g, q), e);
        assert false;
      }
    }
    forall k | k in r
      ensures (r[k].parent == 0 && k in top) || (r[k].parent in r && r[k].parent in g.expanded && k in Kids(g, To(g, r[k].parent)))
    {
      assert FromKids(g, rank, flagsOf, r, root, top, 0, k);
    }
  }

  /**
   * A tree grown from the null edge 0 showing root: the root itself is a
   * tab under 0; every other tab hangs under an expanded tab whose node
   * lists it; every expanded tab has all the out-edges of its node in the
   * tree; each tab other than the root shows its edge's node.
   */
  lemma RootedTree(g: Graph, rank: map<NodeId, nat>, flagsOf: (EdgeId, NodeId) -> nat, root: NodeId)
    requires WellFormed(g) && Ranked(g, rank) && (0 in g.expanded ==> root in rank)
    ensures 0 in Gen(g, rank, flagsOf, map[], 0, root, 0)
    ensures Gen(g, rank, flagsOf, map[], 0, root, 0)[0] == Tab(root, 0, flagsOf(0, root))
    ensures forall k :: k in Gen(g, rank, flagsOf, map[], 0, root, 0) && k != 0 ==>
      var tab := Gen(g, rank, flagsOf, map[], 0, root, 0)[k];
      tab.node == To(g, k) && tab.flags == flagsOf(k, To(g, k)) &&
      tab.parent in Gen(g, rank, flagsOf, map[], 0, root, 0) && tab.parent in g.expanded && k in Kids(g, NodeOf(g, 0, root, tab.parent))
    ensures forall q, c ::
      (q in Gen(g, rank, flagsOf, map[], 0, root, 0) && q in g.expanded && c in Kids(g, NodeOf(g, 0, root, q)))
      ==> c in Gen(g, rank, flagsOf, map[], 0, root, 0)
  {
    var r := Gen(g, rank, flagsOf, map[], 0, root, 0);
    GenSpec(g, rank, flagsOf, map[], 0, root, 0);
    assert FromStart(g, rank, flagsOf, r, 0, root, 0, 0);
    forall k | k in r && k != 0
      ensures r[k].node == To(g, k) && r[k].parent in r && r[k].parent in g.expanded && k in Kids(g, NodeOf(g, 0, root, r[k].parent))
    {
      assert FromStart(g, rank, flagsOf, r, 0, root, 0, k);
    }
  }

  /**
   * Visits edge e showing node n under parent p, recursing into the
   * out-edges of n when e is expanded; a tab already present is kept.
   */
  method GenTabs(g: Graph, ghost rank: map<NodeId, nat>, flagsOf: (EdgeId, NodeId) -> nat,
                 t: Tabs, e: EdgeId, n: NodeId, p: EdgeId) returns (r: Tabs)
    requires Ranked(g, rank) && (e in g.expanded ==> n in rank)
    ensures r == Gen(g, rank, flagsOf, t, e, n, p)
    decreases Height(g, rank, e, n), 1, 0
  {
    r := t;
    if e !in r {
      r := r[e := Tab(n, p, flagsOf(e, n))];
    }
    if e in g.expanded {
      var children := Kids(g, n);
      ghost var t1 := r;
      for i := 0 to |children|
        invariant r == GenAll(g, rank, flagsOf, t1, n, children[..i], e)
      {
        var child := children[i];
        assert children[..i + 1][..i] == children[..i];
        r := GenTabs(g, rank, flagsOf, r, child, To(g, child), e);
      }
      assert children[..|children|] == children;
    }
  }

  // ------------------------------------------------------------ changes

  /** The edges and nodes an update touched. */
  datatype Update = Update(edges: set<EdgeId>, nodes: set<NodeId>)

  /** One change sent to the shell: a tab to show, or None for a tab to remove. */
  type Change = (EdgeId, Option<Tab>)

  /** order lists each key of t exactly once, as iterating over t does. */
  predicate Enumerates(order: seq<EdgeId>, t: Tabs) {
    (forall i, j :: 0 <= i < j < |order| ==> order[i] != order[j]) &&
    (forall k :: k in t ==> k in order) && (forall k :: k in order ==> k in t)
  }

  /** Whether a tab of the new tree is sent: new, flags changed, or its edge or node updated. */
  predicate Resent(u: Update, before: Tabs, id: EdgeId, tab: Tab) {
    id !in before || tab.flags != before[id].flags || id in u.edges || tab.node in u.nodes
  }

  /** A removal for each listed edge the new tree lacks, in listing order. */
  function Removals(before: seq<EdgeId>, after: Tabs): seq<Change> {
    if before == [] then []
    else
      var id := before[|before| - 1];
      Removals(before[..|before| - 1], after) + (if id !in after then [(id, None)] else [])
  }

  /** The tabs of the new tree that are resent, in listing order. */
  function Additions(u: Update, before: Tabs, order: seq<EdgeId>, after: Tabs): seq<Change>
    requires forall k :: k in order ==> k in after
  {
    if order == [] then []
    else
      var id := order[|order| - 1];
      Additions(u, before, order[..|order| - 1], after)
        + (if Resent(u, before, id, after[id]) then [(id, Some(after[id]))] else [])
  }

  /**
   * Lists the changes that turn the shell's copy of `before` into `after`:
   * first every removal, then every tab that is new, changed in flags, or
   * touched by the update.
   */
  method ChangedTabs(u: Update, before: Tabs, beforeOrder: seq<EdgeId>, after: Tabs, afterOrder: seq<EdgeId>)
    returns (r: seq<Change>)
    requires Enumerates(beforeOrder, before) && Enumerates(afterOrder, after)
    ensures r == Changes(u, before, beforeOrder, after, afterOrder)
  {
    r := [];
    for i := 0 to |beforeOrder|
      invariant r == Removals(beforeOrder[..i], after)
    {
      var id := beforeOrder[i];
      assert beforeOrder[..i + 1][..i] == beforeOrder[..i];
      if id !in after {
        r := r + [(id, None)];
      }
    }
    assert beforeOrder[..|beforeOrder|] == beforeOrder;
    ghost var removals := r;
    for i := 0 to |afterOrder|
      invariant r == removals + Additions(u, before, afterOrder[..i], after)
    {
      var id := afterOrder[i];
      var tab := after[id];
      assert afterOrder[..i + 1][..i] == afterOrder[..i];
      if id !in before || tab.flags != before[id].flags || id in u.edges || tab.node in u.nodes {
        r := r + [(id, Some(tab))];
      }
    }
    assert afterOrder[..|afterOrder|] == afterOrder;
  }

  lemma {:induction false} RemovalsIn(before: seq<EdgeId>, after: Tabs)
    ensures forall i :: 0 <= i < |Removals(before, after)| ==>
      Removals(before, after)[i].1 == None && Removals(before, after)[i].0 in before && Removals(before, after)[i].0 !in after
    ensures forall id :: id in before && id !in after ==> (id, None) in Removals(before, after)
    ensures (forall i, j :: 0 <= i < j < |before| ==> before[i] != before[j]) ==>
      forall i, j :: 0 <= i < j < |Removals(before, after)| ==> Removals(before, after)[i].0 != Removals(before, after)[j].0
  {
    if before != [] {
      var front := before[..|before| - 1];
      RemovalsIn(front, after);
      assert forall x :: x in front ==> x in before;
      assert forall x :: x in before ==> x in front || x == before[|before| - 1];
    }
  }

  lemma {:induction false} AdditionsIn(u: Update, before: Tabs, order: seq<EdgeId>, after: Tabs)
    requires forall k :: k in order ==> k in after
    ensures forall i :: 0 <= i < |Additions(u, before, order, after)| ==>
      var (id, tab) := Additions(u, before, order, after)[i];
      id in order && tab == Some(after[id]) && Resent(u, before, id, after[id])
    ensures forall id :: id in order && Resent(u, before, id, after[id]) ==> (id, Some(after[id])) in Additions(u, before, order, after)
    ensures (forall i, j :: 0 <= i < j < |order| ==> order[i] != order[j]) ==>
      forall i, j :: 0 <= i < j < |Additions(u, before, order, after)| ==>
        Additions(u, before, order, after)[i].0 != Additions(u, before, order, after)[j].0
  {
    if order != [] {
      var front := order[..|order| - 1];
      assert forall x :: x in front ==> x in order;
      AdditionsIn(u, before, front, after);
      assert forall x :: x in order ==> x in front || x == order[|order| - 1];
    }
  }

  /** The whole change list: removals, then additions. */
  function Changes(u: Update, before: Tabs, beforeOrder: seq<EdgeId>, after: Tabs, afterOrder: seq<EdgeId>): seq<Change>
    requires forall k :: k in afterOrder ==> k in after
  {
    Removals(beforeOrder, after) + Additions(u, before, afterOrder, after)
  }

  /** A removal is listed exactly for each edge only the old tree has. */
  lemma ChangesRemove(u: Update, before: Tabs, beforeOrder: seq<EdgeId>, after: Tabs, afterOrder: seq<EdgeId>, id: EdgeId)
    requires Enumerates(beforeOrder, before) && Enumerates(afterOrder, after)
    ensures (id, None) in Changes(u, before, beforeOrder, after, afterOrder) <==> id in before && id !in after
  {
    var rs := Removals(beforeOrder, after);
    var ad := Additions(u, before, afterOrder, after);
    var r := rs + ad;
    RemovalsIn(beforeOrder, after);
    AdditionsIn(u, before, afterOrder, after);
    if (id, None) in r {
      var i :| 0 <= i < |r| && r[i] == (id, None);
      assert forall k :: |rs| <= k < |r| ==> r[k] == ad[k - |rs|];
      assert i < |rs|;
      assert rs[i] == r[i];
    }
    if id in before && id !in after {
      assert (id, None) in rs;
    }
  }

  /** The new tab is listed exactly for each edge that is resent. */
  lemma ChangesResend(u: Update, before: Tabs, beforeOrder: seq<EdgeId>, after: Tabs, afterOrder: seq<EdgeId>, id: EdgeId, tab: Tab)
    requires Enumerates(beforeOrder, before) && Enumerates(afterOrder, after)
    ensures (id, Some(tab)) in Changes(u, before, beforeOrder, after, afterOrder)
      <==> id in after && tab == after[id] && Resent(u, before, id, tab)
  {
    var rs := Removals(beforeOrder, after);
    var ad := Additions(u, before, afterOrder, after);
    var r := rs + ad;
    RemovalsIn(beforeOrder, after);
    AdditionsIn(u, before, afterOrder, after);
    if (id, Some(tab)) in r {
      var i :| 0 <= i < |r| && r[i] == (id, Some(tab));
      assert forall k :: 0 <= k < |rs| ==> r[k] == rs[k];
      assert i >= |rs|;
      assert ad[i - |rs|] == r[i];
    }
    if id in after && tab == after[id] && Resent(u, before, id, tab) {
      assert (id, Some(tab)) in ad;
    }
  }

  /** Each edge is listed at most once, and every removal comes ahead of every addition. */
  lemma ChangesOrdered(u: Update, before: Tabs, beforeOrder: seq<EdgeId>, after: Tabs, afterOrder: seq<EdgeId>, i: nat, j: nat)
    requires Enumerates(beforeOrder, before) && Enumerates(afterOrder, after)
    requires i < j < |Changes(u, before, beforeOrder, after, afterOrder)|
    ensures Changes(u, before, beforeOrder, after, afterOrder)[i].0 != Changes(u, before, beforeOrder, after, afterOrder)[j].0
    ensures Changes(u, before, beforeOrder, after, afterOrder)[i].1.Some? ==> Changes(u, before, beforeOrder, after, afterOrder)[j].1.Some?
  {
    var rs := Removals(beforeOrder, after);
    var ad := Additions(u, before, afterOrder, after);
    var r := rs + ad;
    RemovalsIn(beforeOrder, after);
    AdditionsIn(u, before, afterOrder, after);
    if j < |rs| {
      assert rs[i] == r[i] && rs[j] == r[j];
    } else if i >= |rs| {
      assert ad[i - |rs|] == r[i] && ad[j - |rs|] == r[j];
    } else {
      assert rs[i] == r[i] && ad[j - |rs|] == r[j];
    }
  }

  /** The shell's copy after one change. */
  function Applied(t: Tabs, c: Change): Tabs {
    match c.1
    case None => t - {c.0}
    case Some(tab) => t[c.0 := tab]
  }

  /** The shell's copy after a list of changes, applied in order. */
  function Apply(t: Tabs, cs: seq<Change>): Tabs {
    if cs == [] then t else Applied(Apply(t, cs[..|cs| - 1]), cs[|cs| - 1])
  }

  lemma {:induction false} ApplyAppend(t: Tabs, a: seq<Change>, b: seq<Change>)
    ensures Apply(t, a + b) == Apply(Apply(t, a), b)
  {
    if b != [] {
      var front := b[..|b| - 1];
      var last := b[|b| - 1];
      assert (a + b)[..|a + b| - 1] == a + front;
      assert (a + b)[|a + b| - 1] == last;
      ApplyAppend(t, a, front);
      calc {
        Apply(t, a + b);
        Applied(Apply(t, a + front), last);
        Applied(Apply(Apply(t, a), front), last);
        Apply(Apply(t, a), b);
      }
    } else {
      assert a + b == a;
    }
  }

  /** Every tab that stays in view but is not resent is the same tab in both trees. */
  predicate Covered(u: Update, before: Tabs, after: Tabs) {
    forall id :: id in before && id in after && !Resent(u, before, id, after[id]) ==> before[id] == after[id]
  }

  /** Applying the removals drops exactly the listed edges the new tree lacks. */
  lemma {:induction false} ApplyRemovals(before: Tabs, order: seq<EdgeId>, after: Tabs)
    ensures forall k :: k in Apply(before, Removals(order, after)) <==> k in before && (k in after || k !in order)
    ensures forall k :: k in Apply(before, Removals(order, after)) ==> Apply(before, Removals(order, after))[k] == before[k]
  {
    if order != [] {
      var front := order[..|order| - 1];
      var id := order[|order| - 1];
      ApplyRemovals(before, front, after);
      var x := if id !in after then [(id, None)] else [];
      ApplyAppend(before, Removals(front, after), x);
      assert forall k :: k in order <==> k in front || k == id;
      if id !in after {
        assert Apply(Apply(before, Removals(front, after)), x) == Applied(Apply(before, Removals(front, after)), (id, None));
      }
    }
  }

  /** Applying the additions overwrites exactly the resent edges with their new tabs. */
  lemma {:induction false} ApplyAdditions(u: Update, before: Tabs, order: seq<EdgeId>, after: Tabs, base: Tabs)
    requires forall k :: k in order ==> k in after
    ensures forall k :: k in Apply(base, Additions(u, before, order, after)) <==>
      k in base || (k in order && Resent(u, before, k, after[k]))
    ensures forall k :: k in Apply(base, Additions(u, before, order, after)) ==>
      Apply(base, Additions(u, before, order, after))[k] ==
        if k in order && Resent(u, before, k, after[k]) then after[k] else base[k]
  {
    if order != [] {
      var front := order[..|order| - 1];
      var id := order[|order| - 1];
      assert forall x :: x in front ==> x in order;
      ApplyAdditions(u, before, front, after, base);
      var x := if Resent(u, before, id, after[id]) then [(id, Some(after[id]))] else [];
      ApplyAppend(base, Additions(u, before, front, after), x);
      assert forall k :: k in order <==> k in front || k == id;
      if Resent(u, before, id, after[id]) {
        assert Apply(Apply(base, Additions(u, before, front, after)), x)
          == Applied(Apply(base, Additions(u, before, front, after)), (id, Some(after[id])));
      }
    }
  }

  /**
   * Applying the change list to the old tree gives the new one, provided
   * every tab that changed in some other way than its flags was touched by
   * the update.
   */
  lemma ChangesRebuild(u: Update, before: Tabs, beforeOrder: seq<EdgeId>, after: Tabs, afterOrder: seq<EdgeId>)
    requires Enumerates(beforeOrder, before) && Enumerates(afterOrder, after)
    requires Covered(u, before, after)
    ensures Apply(before, Changes(u, before, beforeOrder, after, afterOrder)) == after
  {
    var rs := Removals(beforeOrder, after);
    var ad := Additions(u, before, afterOrder, after);
    ApplyAppend(before, rs, ad);
    ApplyRemovals(before, beforeOrder, after);
    var base := Apply(before, rs);
    ApplyAdditions(u, before, afterOrder, after, base);
    var r := Apply(base, ad);
    assert forall k :: k in r <==> k in after;
    forall k | k in r
      ensures r[k] == after[k]
    {
      if !Resent(u, before, k, after[k]) {
        assert k in base;
      }
    }
  }

  // ------------------------------------------------------------ removal as an empty tab

  /** The removal marker of the revisions that send Tabs rather than optional Tabs: node 0. */
  const EMPTY: Tab := Tab(0, 0, 0)

  function Marked(c: Change): (EdgeId, Tab) {
    (c.0, if c.1.Some? then c.1.value else EMPTY)
  }

  function Unmarked(c: (EdgeId, Tab)): Change {
    (c.0, if c.1.node == 0 then None else Some(c.1))
  }

  function MarkAll(cs: seq<Change>): seq<(EdgeId, Tab)> {
    if cs == [] then [] else MarkAll(cs[..|cs| - 1]) + [Marked(cs[|cs| - 1])]
  }

  lemma {:induction false} MarkAllAt(cs: seq<Change>)
    ensures |MarkAll(cs)| == |cs|
    ensures forall i :: 0 <= i < |cs| ==> MarkAll(cs)[i] == Marked(cs[i])
  {
    if cs != [] {
      MarkAllAt(cs[..|cs| - 1]);
    }
  }

  lemma {:induction false} MarkAllAppend(a: seq<Change>, b: seq<Change>)
    ensures MarkAll(a + b) == MarkAll(a) + MarkAll(b)
  {
    if b != [] {
      var front := b[..|b| - 1];
      var last := b[|b| - 1];
      assert (a + b)[..|a + b| - 1] == a + front;
      assert (a + b)[|a + b| - 1] == last;
      MarkAllAppend(a, front);
      calc {
        MarkAll(a + b);
        MarkAll(a + front) + [Marked(last)];
        MarkAll(a) + MarkAll(front) + [Marked(last)];
        MarkAll(a) + MarkAll(b);
      }
    } else {
      assert a + b == a;
    }
  }

  /** The removals of Removals, each sent as the empty tab. */
  function MarkedRemovals(order: seq<EdgeId>, after: Tabs): seq<(EdgeId, Tab)> {
    if order == [] then []
    else
      var id := order[|order| - 1];
      MarkedRemovals(order[..|order| - 1], after) + (if id !in after then [(id, EMPTY)] else [])
  }

  /** The additions of Additions, each sent as the bare tab. */
  function MarkedAdditions(u: Update, before: Tabs, order: seq<EdgeId>, after: Tabs): seq<(EdgeId, Tab)>
    requires forall k :: k in order ==> k in after
  {
    if order == [] then []
    else
      var id := order[|order| - 1];
      MarkedAdditions(u, before, order[..|order| - 1], after)
        + (if Resent(u, before, id, after[id]) then [(id, after[id])] else [])
  }

  lemma {:induction false} MarkedRemovalsAre(order: seq<EdgeId>, after: Tabs)
    ensures MarkedRemovals(order, after) == MarkAll(Removals(order, after))
  {
    if order != [] {
      var id := order[|order| - 1];
      MarkedRemovalsAre(order[..|order| - 1], after);
      var x: seq<Change> := if id !in after then [(id, None)] else [];
      MarkAllAppend(Removals(order[..|order| - 1], after), x);
      assert MarkAll(x) == if id !in after then [(id, EMPTY)] else [];
    }
  }

  lemma {:induction false} MarkedAdditionsAre(u: Update, before: Tabs, order: seq<EdgeId>, after: Tabs)
    requires forall k :: k in order ==> k in after
    ensures MarkedAdditions(u, before, order, after) == MarkAll(Additions(u, before, order, after))
  {
    if order != [] {
      var id := order[|order| - 1];
      var front := order[..|order| - 1];
      assert forall k :: k in front ==> k in order;
      MarkedAdditionsAre(u, before, front, after);
      var x: seq<Change> := if Resent(u, before, id, after[id]) then [(id, Some(after[id]))] else [];
      MarkAllAppend(Additions(u, before, front, after), x);
      assert MarkAll(x) == if Resent(u, before, id, after[id]) then [(id, after[id])] else [];
    }
  }

  /**
   * As ChangedTabs, but a removal is sent as the empty tab, as the model
   * and page revisions do.
   */
  method ChangedTabsMarked(u: Update, before: Tabs, beforeOrder: seq<EdgeId>, after: Tabs, afterOrder: seq<EdgeId>)
    returns (r: seq<(EdgeId, Tab)>)
    requires Enumerates(beforeOrder, before) && Enumerates(afterOrder, after)
    ensures r == MarkAll(Changes(u, before, beforeOrder, after, afterOrder))
  {
    r := [];
    for i := 0 to |beforeOrder|
      invariant r == MarkedRemovals(beforeOrder[..i], after)
    {
      var id := beforeOrder[i];
      assert beforeOrder[..i + 1][..i] == beforeOrder[..i];
      if id !in after {
        r := r + [(id, EMPTY)];
      }
    }
    assert beforeOrder[..|beforeOrder|] == beforeOrder;
    ghost var removals := r;
    for i := 0 to |afterOrder|
      invariant r == removals + MarkedAdditions(u, before, afterOrder[..i], after)
    {
      var id := afterOrder[i];
      var tab := after[id];
      assert afterOrder[..i + 1][..i] == afterOrder[..i];
      if id !in before || tab.flags != before[id].flags || id in u.edges || tab.node in u.nodes {
        r := r + [(id, tab)];
      }
    }
    assert afterOrder[..|afterOrder|] == afterOrder;
    MarkedRemovalsAre(beforeOrder, after);
    MarkedAdditionsAre(u, before, afterOrder, after);
    MarkAllAppend(Removals(beforeOrder, after), Additions(u, before, afterOrder, after));
  }

  /**
   * The empty-tab encoding loses nothing as long as no tab of the new tree
   * shows node 0: reading node 0 as a removal gives back the change list.
   */
  lemma MarkedDecodes(u: Update, before: Tabs, beforeOrder: seq<EdgeId>, after: Tabs, afterOrder: seq<EdgeId>, i: nat)
    requires Enumerates(beforeOrder, before) && Enumerates(afterOrder, after)
    requires forall k :: k in after ==> after[k].node != 0
    requires i < |Changes(u, before, beforeOrder, after, afterOrder)|
    ensures i < |MarkAll(Changes(u, before, beforeOrder, after, afterOrder))|
    ensures Unmarked(MarkAll(Changes(u, before, beforeOrder, after, afterOrder))[i]) == Changes(u, before, beforeOrder, after, afterOrder)[i]
  {
    var cs := Changes(u, before, beforeOrder, after, afterOrder);
    MarkAllAt(cs);
    var (id, c) := cs[i];
    if c.Some? {
      ChangesResend(u, before, beforeOrder, after, afterOrder, id, c.value);
    }
  }
}
