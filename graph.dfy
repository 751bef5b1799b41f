/** The road graph's vocabulary: node keys, directed edges and their weight maps. */
module Graph {
  import opened Weights

  /** A node key. Map nodes carry the identifier from the map data; a point
      picked on an edge is the virtual node that splits edge (u, v) at ratio. */
  datatype Node = Regular(id: string) | Virtual(u: Node, v: Node, ratio: real)

  /** A directed edge src -> dst. */
  datatype Edge = Edge(src: Node, dst: Node)

  /** The graph's edges with their 'weight' attributes. */
  type EdgeMap = map<Edge, Attr>

  const VirtualPrefix: string := "VIRTUAL_"

  /** `node_id.startswith('VIRTUAL_')`: every virtual key, and any map
      identifier that happens to begin with the prefix. */
  predicate IsVirtualId(n: Node)
  {
    n.Virtual? || (|n.id| >= |VirtualPrefix| && n.id[..|VirtualPrefix|] == VirtualPrefix)
  }

  /** Python truthiness of a node identifier: only the empty string is false. */
  predicate Truthy(n: Node)
  {
    n != Regular("")
  }

  /** A selection slot (start or end) that holds a truthy node: `if self.start_node`. */
  predicate Chosen(o: Option<Node>)
  {
    o.Some? && Truthy(o.value)
  }

  /** Every edge joins two nodes of the graph. */
  predicate EdgesWithin(E: EdgeMap, nodes: set<Node>)
  {
    forall e :: e in E ==> e.src in nodes && e.dst in nodes
  }

  /** The edges left after deleting the nodes R (graph.remove_node drops every
      incident edge). */
  function RemoveNodes(E: EdgeMap, R: set<Node>): (r: EdgeMap)
    ensures forall e :: e in r <==> e in E && e.src !in R && e.dst !in R
    ensures forall e :: e in r ==> r[e] == E[e]
  {
    map e | e in E && e.src !in R && e.dst !in R :: E[e]
  }

  /** Removing nodes keeps every remaining edge inside the remaining nodes. */
  lemma RemoveNodesKeepsEdgesWithin(E: EdgeMap, nodes: set<Node>, R: set<Node>)
    requires EdgesWithin(E, nodes)
    ensures EdgesWithin(RemoveNodes(E, R), nodes - R)
  {
  }

  /** Deleting R and then S is deleting R + S. */
  lemma RemoveNodesTwice(E: EdgeMap, R: set<Node>, S: set<Node>)
    ensures RemoveNodes(RemoveNodes(E, R), S) == RemoveNodes(E, R + S)
  {
  }

  /** Deleting nodes the graph does not have leaves its edges alone. */
  lemma RemoveAbsentNodes(E: EdgeMap, nodes: set<Node>, R: set<Node>)
    requires EdgesWithin(E, nodes)
    requires R !! nodes
    ensures RemoveNodes(E, R) == E
  {
  }
}
