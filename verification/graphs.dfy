/** Attributed directed graphs: one feature row per node, a list of directed
    edges, and one feature row per edge. The column counts of the two feature
    matrices are carried explicitly, so a graph with no nodes or no edges still
    has a well-defined shape. */
module Graphs {

  /** A directed edge between two node indices. */
  datatype Edge = Edge(src: nat, dst: nat)

  /** `x[i]` is the feature row of node `i`; `edges[k]` is the k-th directed
      edge and `edgeAttr[k]` its feature row. */
  datatype Graph = Graph(
    nodeWidth: nat,
    x: seq<seq<real>>,
    edges: seq<Edge>,
    edgeWidth: nat,
    edgeAttr: seq<seq<real>>)

  function Reverse(e: Edge): Edge {
    Edge(e.dst, e.src)
  }

  /** Both feature matrices are rectangular with the declared column counts. */
  predicate Shaped(g: Graph) {
    && (forall i :: 0 <= i < |g.x| ==> |g.x[i]| == g.nodeWidth)
    && (forall k :: 0 <= k < |g.edgeAttr| ==> |g.edgeAttr[k]| == g.edgeWidth)
  }

  /** The edge list and the edge-feature list are index-aligned. */
  predicate Aligned(g: Graph) {
    |g.edges| == |g.edgeAttr|
  }

  /** Every edge endpoint names an existing node. */
  predicate EdgesInRange(g: Graph) {
    forall k :: 0 <= k < |g.edges| ==> g.edges[k].src < |g.x| && g.edges[k].dst < |g.x|
  }

  predicate WellFormed(g: Graph) {
    Shaped(g) && Aligned(g) && EdgesInRange(g)
  }

  /** Every directed edge comes with its reverse. */
  predicate Symmetric(g: Graph) {
    forall k :: 0 <= k < |g.edges| ==> Reverse(g.edges[k]) in g.edges
  }

  function Zeros(n: nat): seq<real> {
    seq(n, _ => 0.0)
  }

  function Ones(n: nat): seq<real> {
    seq(n, _ => 1.0)
  }

  /** `count` rows of `width` ones each. */
  function OnesRows(count: nat, width: nat): seq<seq<real>> {
    seq(count, _ => Ones(width))
  }
}
