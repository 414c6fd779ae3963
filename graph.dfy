/** The part of the merged street graph the application reads: the nodes
    table (`ox.graph_to_gdfs`) and the route's node sequence. Building the
    graph and finding the route are done by osmnx and networkx and are not
    modelled; they arrive here as values. */
module Graph {

  /** One row of the nodes table: the OSM id, `x` (longitude) and `y`
      (latitude). */
  datatype Node = Node(id: int, x: real, y: real)

  /** Some row of the table carries `id`. */
  predicate HasNode(nodes: seq<Node>, id: int)
  {
    exists i :: 0 <= i < |nodes| && nodes[i].id == id
  }

  /** The table is indexed by node id, so no id appears twice. */
  predicate UniqueIds(nodes: seq<Node>)
  {
    forall i, j :: 0 <= i < j < |nodes| ==> nodes[i].id != nodes[j].id
  }

  /** Every node of the route is a row of the table (networkx returns a
      path through the graph's own nodes). */
  predicate OnGraph(nodes: seq<Node>, route: seq<int>)
  {
    forall k :: 0 <= k < |route| ==> HasNode(nodes, route[k])
  }

  /** `nodes.loc[id]`: the row carrying `id`. */
  function NodeAt(nodes: seq<Node>, id: int): (n: Node)
    requires HasNode(nodes, id)
    ensures n in nodes && n.id == id
  {
    if nodes[0].id == id then nodes[0]
    else
      assert HasNode(nodes[1..], id) by {
        var i :| 0 <= i < |nodes| && nodes[i].id == id;
        assert nodes[1..][i - 1] == nodes[i];
      }
      NodeAt(nodes[1..], id)
  }

  /** With ids unique, the row found is the only one carrying the id. */
  lemma NodeAtIsTheRow(nodes: seq<Node>, i: nat)
    requires UniqueIds(nodes) && i < |nodes|
    ensures NodeAt(nodes, nodes[i].id) == nodes[i]
  {
    var n := NodeAt(nodes, nodes[i].id);
    var j :| 0 <= j < |nodes| && nodes[j] == n;
    assert j == i;
  }

  /** The map position `[x, y]` of a node, as the path layer wants it. */
  function Position(n: Node): seq<real>
  {
    [n.x, n.y]
  }

  /** `p` is the `[x, y]` position of a row carrying `id`. */
  predicate PositionOf(nodes: seq<Node>, id: int, p: seq<real>)
  {
    exists i :: 0 <= i < |nodes| && nodes[i].id == id && p == Position(nodes[i])
  }

  lemma NodeAtPosition(nodes: seq<Node>, id: int)
    requires HasNode(nodes, id)
    ensures PositionOf(nodes, id, Position(NodeAt(nodes, id)))
  {
    var n := NodeAt(nodes, id);
    var i :| 0 <= i < |nodes| && nodes[i] == n;
  }

  /** `[[nodes['x'].loc[node], nodes['y'].loc[node]] for node in route]`:
      one `[x, y]` point per route node, in route order. */
  function Polyline(nodes: seq<Node>, route: seq<int>): (path: seq<seq<real>>)
    requires OnGraph(nodes, route)
    ensures |path| == |route|
    ensures forall k :: 0 <= k < |path| ==> PositionOf(nodes, route[k], path[k])
  {
    var path := seq(|route|, k requires 0 <= k < |route| => Position(NodeAt(nodes, route[k])));
    assert forall k :: 0 <= k < |path| ==> PositionOf(nodes, route[k], path[k]) by {
      forall k | 0 <= k < |path|
        ensures PositionOf(nodes, route[k], path[k])
      {
        NodeAtPosition(nodes, route[k]);
      }
    }
    path
  }

  /** With one row per id, each point of the polyline is the position of
      exactly the row carrying that route node's id. */
  lemma PolylineRows(nodes: seq<Node>, route: seq<int>)
    requires OnGraph(nodes, route) && UniqueIds(nodes)
    ensures var path := Polyline(nodes, route);
      forall k, i :: 0 <= k < |path| && 0 <= i < |nodes| && nodes[i].id == route[k] ==>
        path[k] == Position(nodes[i])
  {
    var path := Polyline(nodes, route);
    forall k, i | 0 <= k < |path| && 0 <= i < |nodes| && nodes[i].id == route[k]
      ensures path[k] == Position(nodes[i])
    {
      var j :| 0 <= j < |nodes| && nodes[j].id == route[k] && path[k] == Position(nodes[j]);
      assert i == j;
    }
  }
}
