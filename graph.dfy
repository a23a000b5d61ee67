/**
 * The adjacency-list graph of tree/src/graph.rs: `nodes` holds the keys, `adjacency_list[i]`
 * the weighted edges leaving `nodes[i]`, each edge naming its target by index into `nodes`.
 */
module Graph {
  import opened Wrappers

  type u32 = x: int | 0 <= x < 0x1_0000_0000

  datatype Edge = Edge(weight: u32, node: nat)

  /**
   * `get_node_index`: the position of the first node equal to `key`, or `None` when there is
   * none.
   */
  function GetNodeIndex<K(==)>(nodes: seq<K>, key: K): (r: Option<nat>)
    ensures r.Some? ==> r.value < |nodes| && nodes[r.value] == key
    ensures r.Some? ==> forall j :: 0 <= j < r.value ==> nodes[j] != key
    ensures r.None? <==> key !in nodes
  {
    if nodes == [] then None
    else if nodes[0] == key then Some(0)
    else match GetNodeIndex(nodes[1..], key)
      case None => None
      case Some(i) => Some(i + 1)
  }

  /**
   * The `filter_map` of `set_edges`: each `(weight, key)` becomes an edge to the index of
   * `key`, and is dropped when `key` is not a node.
   */
  function ResolveEdges<K(==)>(nodes: seq<K>, edges: seq<(u32, K)>): (r: seq<Edge>)
    ensures |r| <= |edges|
    ensures forall i :: 0 <= i < |r| ==> r[i].node < |nodes|
    ensures (forall i :: 0 <= i < |edges| ==> edges[i].1 !in nodes) ==> r == []
    ensures (forall i :: 0 <= i < |edges| ==> edges[i].1 in nodes) ==>
      |r| == |edges| &&
      forall i :: 0 <= i < |edges| ==>
        r[i].weight == edges[i].0 && nodes[r[i].node] == edges[i].1 &&
        GetNodeIndex(nodes, edges[i].1) == Some(r[i].node)
  {
    if edges == [] then []
    else
      var rest := ResolveEdges(nodes, edges[1..]);
      match GetNodeIndex(nodes, edges[0].1)
      case None => rest
      case Some(index) => [Edge(edges[0].0, index)] + rest
  }

  /**
   * An edge is kept exactly when some input pair has its weight and a key found at its index:
   * the pairs whose key is not a node are the ones dropped.
   */
  lemma {:induction false} ResolveEdgesExact<K>(nodes: seq<K>, edges: seq<(u32, K)>, e: Edge)
    ensures e in ResolveEdges(nodes, edges) <==>
      exists i :: 0 <= i < |edges| && edges[i].0 == e.weight && GetNodeIndex(nodes, edges[i].1) == Some(e.node)
  {
    if edges != [] {
      ResolveEdgesExact(nodes, edges[1..], e);
      var r := ResolveEdges(nodes, edges);
      if e in r {
        if e !in ResolveEdges(nodes, edges[1..]) {
          assert edges[0].0 == e.weight && GetNodeIndex(nodes, edges[0].1) == Some(e.node);
        } else {
          var i :| 0 <= i < |edges[1..]| && edges[1..][i].0 == e.weight && GetNodeIndex(nodes, edges[1..][i].1) == Some(e.node);
          assert edges[i + 1] == edges[1..][i];
        }
      }
      if exists i :: 0 <= i < |edges| && edges[i].0 == e.weight && GetNodeIndex(nodes, edges[i].1) == Some(e.node) {
        var i :| 0 <= i < |edges| && edges[i].0 == e.weight && GetNodeIndex(nodes, edges[i].1) == Some(e.node);
        if i > 0 {
          assert edges[1..][i - 1] == edges[i];
        }
      }
    }
  }

  class Graph<K(==)> {
    var adjacencyList: seq<seq<Edge>>
    var nodes: seq<K>

    /** Every node has an edge list, and every edge names an existing node. */
    ghost predicate Valid()
      reads this
    {
      && |nodes| == |adjacencyList|
      && forall i, j :: 0 <= i < |adjacencyList| && 0 <= j < |adjacencyList[i]| ==>
           adjacencyList[i][j].node < |nodes|
    }

    constructor ()
      ensures Valid() && nodes == [] && adjacencyList == []
    {
      adjacencyList, nodes := [], [];
    }

    /**
     * `set_edges`: resolves the edges against the nodes present BEFORE `from` is added, then
     * appends `from` with those edges when it is new, or replaces only its edge list.
     */
    method SetEdges(from: K, edges: seq<(u32, K)>)
      requires Valid()
      modifies this
      ensures Valid()
      ensures var resolved := ResolveEdges(old(nodes), edges);
        match GetNodeIndex(old(nodes), from)
        case None =>
          && nodes == old(nodes) + [from] && adjacencyList == old(adjacencyList) + [resolved]
          // a self-loop on the new node was resolved before the node existed, so it is dropped
          && forall e :: e in adjacencyList[|old(nodes)|] ==> e.node < |old(nodes)|
        case Some(index) =>
          nodes == old(nodes) && adjacencyList == old(adjacencyList)[index := resolved]
    {
      var resolved := ResolveEdges(nodes, edges);
      match GetNodeIndex(nodes, from) {
        case None =>
          nodes := nodes + [from];
          adjacencyList := adjacencyList + [resolved];
        case Some(index) =>
          adjacencyList := adjacencyList[index := resolved];
      }
    }
  }
}
