/**
 * The edge table of src/model/internal/edge.cpp: an edge leads from a node
 * to a node and is ordered among the edges from the same node by its
 * position, a key strictly between 0 and 1. Each SQL query becomes a scan
 * of the _edges table (a map from id to EdgeData); the bisecting Bifractor
 * constructor becomes Between, a value strictly between two positions.
 */
module Edge {
  import opened Wrappers

  /** EdgeID and NodeID: 0 is the null id. */
  type EdgeId = nat
  type NodeId = nat

  /** Positions: Bifractor(0) and Bifractor(1) are the bounds, and every key lies strictly between them. */
  type Position = real

  const Zero: Position := 0.0
  const One: Position := 1.0

  /** A point strictly between two distinct positions. */
  function Between(lo: Position, hi: Position): (r: Position)
    requires lo < hi
    ensures lo < r < hi
  {
    (lo + hi) / 2.0
  }

  /** The row of _edges; created_at and trashed_at are timestamps, 0 meaning unset. */
  datatype EdgeData = EdgeData(
    opener: NodeId, from: NodeId, to: NodeId,
    position: Position, title: string, createdAt: int, trashedAt: int)

  // ------------------------------------------------------------ positions from query results

  /** position_after: between the target and the next sibling up, or 1. */
  function PositionAfter(pos: Position, next: Option<Position>): (r: Position)
    requires pos < One && (next.Some? ==> pos < next.value <= One)
    ensures pos < r < One && (next.Some? ==> r < next.value)
  {
    if next.Some? then Between(pos, next.value) else Between(pos, One)
  }

  /** position_before: between the previous sibling down, or 0, and the target. */
  function PositionBefore(pos: Position, prev: Option<Position>): (r: Position)
    requires Zero < pos && (prev.Some? ==> Zero <= prev.value < pos)
    ensures Zero < r < pos && (prev.Some? ==> prev.value < r)
  {
    if prev.Some? then Between(prev.value, pos) else Between(Zero, pos)
  }

  /**
   * first_position: below the lowest child. With no child at all, the
   * value meant by Bifractor(30/32.0), some key between 0 and 1.
   */
  function FirstPosition(first: Option<Position>): (r: Position)
    requires first.Some? ==> Zero < first.value <= One
    ensures Zero < r < One && (first.Some? ==> r < first.value)
  {
    if first.Some? then Between(Zero, first.value) else Between(Zero, One)
  }

  /** last_position: above the highest child, below 1; with no child, the value meant by Bifractor(2/32.0). */
  function LastPosition(last: Option<Position>): (r: Position)
    requires last.Some? ==> Zero <= last.value < One
    ensures Zero < r < One && (last.Some? ==> last.value < r)
  {
    if last.Some? then Between(last.value, One) else Between(Zero, One)
  }

  /** The Bifractor(bool) constructor: 0 for false, 1 for true. */
  function FromBool(one: bool): (r: Position)
    ensures r == (if one then One else Zero)
  {
    if one then One else Zero
  }

  /**
   * first_position and last_position as written: with no child, the double
   * 30/32.0 (or 2/32.0) converts to the bool true, so the key is Bifractor(1).
   */
  function FirstPositionAsWritten(first: Option<Position>): Position
    requires first.Some? ==> Zero < first.value
  {
    if first.Some? then Between(Zero, first.value) else FromBool(30.0 / 32.0 != 0.0)
  }

  function LastPositionAsWritten(last: Option<Position>): Position
    requires last.Some? ==> last.value < One
  {
    if last.Some? then Between(last.value, One) else FromBool(2.0 / 32.0 != 0.0)
  }

  /**
   * The first child created under a node with no children gets the key 1
   * itself, so "position < Bifractor(1)" fails, and so does the same check
   * for the last child; the intended keys lie below 1.
   */
  lemma ChildlessPositionIsOne()
    ensures FirstPositionAsWritten(None) == One && LastPositionAsWritten(None) == One
    ensures FirstPosition(None) < One && LastPosition(None) < One
  {
  }

  // ------------------------------------------------------------ the table

  /** Some edge whose position is least among ids. */
  lemma {:induction false} LeastPositionExists(edges: map<EdgeId, EdgeData>, ids: set<EdgeId>) returns (m: EdgeId)
    requires ids != {} && ids <= edges.Keys
    ensures m in ids && forall j :: j in ids ==> edges[m].position <= edges[j].position
    decreases |ids|
  {
    if forall y :: y !in ids {
      assert false;
    }
    var x :| x in ids;
    if ids - {x} == {} {
      assert ids == {x};
      m := x;
    } else {
      var m' := LeastPositionExists(edges, ids - {x});
      m := if edges[x].position < edges[m'].position then x else m';
      forall j | j in ids
        ensures edges[m].position <= edges[j].position
      {
        if j != x {
          assert j in ids - {x};
        }
      }
    }
  }

  /** Edges from the same node have distinct positions. */
  ghost predicate SiblingsDistinct(edges: map<EdgeId, EdgeData>)
  {
    forall a, b :: a in edges && b in edges && a != b && edges[a].from == edges[b].from
      ==> edges[a].position != edges[b].position
  }

  class EdgeTable {
    var edges: map<EdgeId, EdgeData>
    var nextId: EdgeId
    /** The edges of the current update that observers will be told about (touch). */
    var updated: set<EdgeId>

    /**
     * Every saved edge has an id below the next rowid, a creation time and
     * a position between 0 and 1, and siblings never share a position.
     */
    ghost predicate Valid()
      reads this
    {
      nextId >= 1
      && (forall e :: e in edges ==> 1 <= e < nextId && edges[e].createdAt > 0 && Zero < edges[e].position < One)
      && SiblingsDistinct(edges)
    }

    constructor ()
      ensures Valid() && edges == map[] && updated == {}
    {
      edges := map[];
      nextId := 1;
      updated := {};
    }

    /**
     * The query "_from_node = ? AND _position > ? ORDER BY _position ASC
     * LIMIT 1": the nearest position above p among the edges from node.
     */
    method NearestAbove(node: NodeId, p: Position) returns (r: Option<Position>)
      ensures r.None? <==> forall e :: e in edges && edges[e].from == node ==> edges[e].position <= p
      ensures r.Some? ==> p < r.value && exists e :: e in edges && edges[e].from == node && edges[e].position == r.value
      ensures r.Some? ==> forall e :: e in edges && edges[e].from == node && p < edges[e].position ==> r.value <= edges[e].position
    {
      var rest := edges.Keys;
      r := None;
      while rest != {}
        invariant rest <= edges.Keys
        invariant r.None? <==> forall e :: e in edges && e !in rest && edges[e].from == node ==> edges[e].position <= p
        invariant r.Some? ==> p < r.value && exists e :: e in edges && edges[e].from == node && edges[e].position == r.value
        invariant r.Some? ==> forall e :: e in edges && e !in rest && edges[e].from == node && p < edges[e].position ==> r.value <= edges[e].position
        decreases |rest|
      {
        var e :| e in rest;
        var d := edges[e];
        if d.from == node && p < d.position && (r.None? || d.position < r.value) {
          r := Some(d.position);
        }
        rest := rest - {e};
      }
    }

    /** The query "_position < ? ORDER BY _position DESC LIMIT 1": the nearest position below p. */
    method NearestBelow(node: NodeId, p: Position) returns (r: Option<Position>)
      ensures r.None? <==> forall e :: e in edges && edges[e].from == node ==> p <= edges[e].position
      ensures r.Some? ==> r.value < p && exists e :: e in edges && edges[e].from == node && edges[e].position == r.value
      ensures r.Some? ==> forall e :: e in edges && edges[e].from == node && edges[e].position < p ==> edges[e].position <= r.value
    {
      var rest := edges.Keys;
      r := None;
      while rest != {}
        invariant rest <= edges.Keys
        invariant r.None? <==> forall e :: e in edges && e !in rest && edges[e].from == node ==> p <= edges[e].position
        invariant r.Some? ==> r.value < p && exists e :: e in edges && edges[e].from == node && edges[e].position == r.value
        invariant r.Some? ==> forall e :: e in edges && e !in rest && edges[e].from == node && edges[e].position < p ==> edges[e].position <= r.value
        decreases |rest|
      {
        var e :| e in rest;
        var d := edges[e];
        if d.from == node && d.position < p && (r.None? || r.value < d.position) {
          r := Some(d.position);
        }
        rest := rest - {e};
      }
    }

    /** get_edges_from_node: the edges from a node, each once, in ascending position. */
    method EdgesFromNode(node: NodeId) returns (r: seq<EdgeId>)
      requires node != 0
      ensures forall e :: e in r <==> e in edges && edges[e].from == node
      ensures forall i, j :: 0 <= i < j < |r| ==> r[i] != r[j]
      ensures forall i, j :: 0 <= i < j < |r| ==> edges[r[i]].position <= edges[r[j]].position
    {
      var rest := set e | e in edges.Keys && edges[e].from == node;
      r := [];
      while rest != {}
        invariant rest <= edges.Keys
        invariant forall e :: e in edges && edges[e].from == node <==> e in rest || e in r
        invariant forall e :: e in r ==> e in edges && e !in rest
        invariant forall i, j :: 0 <= i < j < |r| ==> r[i] != r[j]
        invariant forall i, j :: 0 <= i < j < |r| ==> edges[r[i]].position <= edges[r[j]].position
        invariant forall i, e :: 0 <= i < |r| && e in rest ==> edges[r[i]].position <= edges[e].position
        decreases |rest|
      {
        ghost var least := LeastPositionExists(edges, rest);
        var e :| e in rest && forall j :: j in rest ==> edges[e].position <= edges[j].position;
        r := r + [e];
        rest := rest - {e};
      }
    }

    /** get_last_trashed_edge: an edge with the greatest positive trashed_at, or 0. */
    method LastTrashedEdge() returns (id: EdgeId)
      requires Valid()
      ensures id == 0 <==> forall e :: e in edges ==> edges[e].trashedAt <= 0
      ensures id != 0 ==> id in edges && edges[id].trashedAt > 0
      ensures id != 0 ==> forall e :: e in edges ==> edges[e].trashedAt <= edges[id].trashedAt
    {
      var rest := edges.Keys;
      id := 0;
      while rest != {}
        invariant rest <= edges.Keys
        invariant id == 0 <==> forall e :: e in edges && e !in rest ==> edges[e].trashedAt <= 0
        invariant id != 0 ==> id in edges && edges[id].trashedAt > 0
        invariant id != 0 ==> forall e :: e in edges && e !in rest ==> edges[e].trashedAt <= edges[id].trashedAt
        decreases |rest|
      {
        var e :| e in rest;
        if edges[e].trashedAt > 0 && (id == 0 || edges[id].trashedAt < edges[e].trashedAt) {
          id := e;
        }
        rest := rest - {e};
      }
    }

    /** create_edge and save: the row gets the next rowid and now as created_at, and is touched. */
    method Insert(data: EdgeData, now: int) returns (id: EdgeId)
      requires Valid() && now > 0 && data.createdAt == 0 && data.trashedAt == 0
      requires Zero < data.position < One
      requires forall e :: e in edges && edges[e].from == data.from ==> edges[e].position != data.position
      modifies this
      ensures Valid() && id == old(nextId) && id !in old(edges) && id != 0
      ensures edges == old(edges)[id := data.(createdAt := now)]
      ensures updated == old(updated) + {id}
    {
      id := nextId;
      edges := edges[id := data.(createdAt := now)];
      nextId := nextId + 1;
      updated := updated + {id};
    }

    /** save of an existing row: the cached data is written back and touched. */
    method Save(id: EdgeId, data: EdgeData)
      requires Valid() && id in edges && data.createdAt > 0 && Zero < data.position < One
      requires forall e :: e in edges && e != id && edges[e].from == data.from ==> edges[e].position != data.position
      modifies this
      ensures Valid() && edges == old(edges)[id := data] && nextId == old(nextId)
      ensures updated == old(updated) + {id}
    {
      edges := edges[id := data];
      updated := updated + {id};
    }

    /** create_first_child: opened from and placed under parent, below all its children. */
    method CreateFirstChild(parent: NodeId, to: NodeId, title: string, now: int) returns (id: EdgeId)
      requires Valid() && parent != 0 && now > 0
      modifies this
      ensures Valid() && id !in old(edges) && id != 0 && id in edges
      ensures edges == old(edges)[id := edges[id]]
      ensures var d := edges[id];
        d.opener == parent && d.from == parent && d.to == to && d.title == title
        && d.createdAt == now && d.trashedAt == 0
        && forall e :: e in old(edges) && old(edges)[e].from == parent ==> d.position < old(edges)[e].position
    {
      var first := NearestAbove(parent, Zero);
      var position := FirstPosition(first);
      id := Insert(EdgeData(parent, parent, to, position, title, 0, 0), now);
    }

    /** create_last_child: opened from and placed under parent, above all its children. */
    method CreateLastChild(parent: NodeId, to: NodeId, title: string, now: int) returns (id: EdgeId)
      requires Valid() && parent != 0 && now > 0
      modifies this
      ensures Valid() && id !in old(edges) && id != 0 && id in edges
      ensures edges == old(edges)[id := edges[id]]
      ensures var d := edges[id];
        d.opener == parent && d.from == parent && d.to == to && d.title == title
        && d.createdAt == now && d.trashedAt == 0
        && forall e :: e in old(edges) && old(edges)[e].from == parent ==> old(edges)[e].position < d.position
    {
      var last := NearestBelow(parent, One);
      var position := LastPosition(last);
      id := Insert(EdgeData(parent, parent, to, position, title, 0, 0), now);
    }

    /**
     * create_next_sibling: beside the target (under the target's from_node),
     * strictly between it and the next sibling up.
     */
    method CreateNextSibling(opener: NodeId, target: EdgeId, to: NodeId, title: string, now: int) returns (id: EdgeId)
      requires Valid() && opener != 0 && target in edges && now > 0
      modifies this
      ensures Valid() && id !in old(edges) && id != 0 && id in edges
      ensures edges == old(edges)[id := edges[id]]
      ensures var d, t := edges[id], old(edges)[target];
        d.opener == opener && d.from == t.from && d.to == to && d.title == title
        && d.createdAt == now && d.trashedAt == 0 && t.position < d.position
        && forall e :: e in old(edges) && old(edges)[e].from == t.from && t.position < old(edges)[e].position
             ==> d.position < old(edges)[e].position
    {
      var t := edges[target];
      var next := NearestAbove(t.from, t.position);
      var position := PositionAfter(t.position, next);
      id := Insert(EdgeData(opener, t.from, to, position, title, 0, 0), now);
    }

    /** create_prev_sibling: beside the target, strictly between the previous sibling down and it. */
    method CreatePrevSibling(opener: NodeId, target: EdgeId, to: NodeId, title: string, now: int) returns (id: EdgeId)
      requires Valid() && opener != 0 && target in edges && now > 0
      modifies this
      ensures Valid() && id !in old(edges) && id != 0 && id in edges
      ensures edges == old(edges)[id := edges[id]]
      ensures var d, t := edges[id], old(edges)[target];
        d.opener == opener && d.from == t.from && d.to == to && d.title == title
        && d.createdAt == now && d.trashedAt == 0 && d.position < t.position
        && forall e :: e in old(edges) && old(edges)[e].from == t.from && old(edges)[e].position < t.position
             ==> old(edges)[e].position < d.position
    {
      var t := edges[target];
      var prev := NearestBelow(t.from, t.position);
      var position := PositionBefore(t.position, prev);
      id := Insert(EdgeData(opener, t.from, to, position, title, 0, 0), now);
    }

    /** move_first_child: only from_node and position change; the edge goes below parent's children. */
    method MoveFirstChild(id: EdgeId, parent: NodeId)
      requires Valid() && id in edges
      modifies this
      ensures Valid() && id in edges && edges == old(edges)[id := edges[id]]
      ensures edges[id] == old(edges)[id].(from := parent, position := edges[id].position)
      ensures forall e :: e in old(edges) && old(edges)[e].from == parent ==> edges[id].position < old(edges)[e].position
    {
      var first := NearestAbove(parent, Zero);
      var position := FirstPosition(first);
      Save(id, edges[id].(from := parent, position := position));
    }

    /** move_last_child: only from_node and position change; the edge goes above parent's children. */
    method MoveLastChild(id: EdgeId, parent: NodeId)
      requires Valid() && id in edges
      modifies this
      ensures Valid() && id in edges && edges == old(edges)[id := edges[id]]
      ensures edges[id] == old(edges)[id].(from := parent, position := edges[id].position)
      ensures forall e :: e in old(edges) && old(edges)[e].from == parent ==> old(edges)[e].position < edges[id].position
    {
      var last := NearestBelow(parent, One);
      var position := LastPosition(last);
      Save(id, edges[id].(from := parent, position := position));
    }

    /** move_after: the edge joins the target's siblings, just above the target. */
    method MoveAfter(id: EdgeId, target: EdgeId)
      requires Valid() && id in edges && target in edges
      modifies this
      ensures Valid() && id in edges && edges == old(edges)[id := edges[id]]
      ensures var t := old(edges)[target];
        edges[id] == old(edges)[id].(from := t.from, position := edges[id].position)
        && t.position < edges[id].position
        && forall e :: e in old(edges) && old(edges)[e].from == t.from && t.position < old(edges)[e].position
             ==> edges[id].position < old(edges)[e].position
    {
      var t := edges[target];
      var next := NearestAbove(t.from, t.position);
      var position := PositionAfter(t.position, next);
      Save(id, edges[id].(from := t.from, position := position));
    }

    /** move_before: the edge joins the target's siblings, just below the target. */
    method MoveBefore(id: EdgeId, target: EdgeId)
      requires Valid() && id in edges && target in edges
      modifies this
      ensures Valid() && id in edges && edges == old(edges)[id := edges[id]]
      ensures var t := old(edges)[target];
        edges[id] == old(edges)[id].(from := t.from, position := edges[id].position)
        && edges[id].position < t.position
        && forall e :: e in old(edges) && old(edges)[e].from == t.from && old(edges)[e].position < t.position
             ==> old(edges)[e].position < edges[id].position
    {
      var t := edges[target];
      var prev := NearestBelow(t.from, t.position);
      var position := PositionBefore(t.position, prev);
      Save(id, edges[id].(from := t.from, position := position));
    }

    /** trash: trashed_at becomes now. */
    method Trash(id: EdgeId, now: int)
      requires Valid() && id in edges && now > 0
      modifies this
      ensures Valid() && edges == old(edges)[id := old(edges)[id].(trashedAt := now)]
      ensures updated == old(updated) + {id}
    {
      Save(id, edges[id].(trashedAt := now));
    }

    /** untrash: trashed_at is cleared. */
    method Untrash(id: EdgeId)
      requires Valid() && id in edges
      modifies this
      ensures Valid() && edges == old(edges)[id := old(edges)[id].(trashedAt := 0)]
      ensures updated == old(updated) + {id}
    {
      Save(id, edges[id].(trashedAt := 0));
    }
  }
}
