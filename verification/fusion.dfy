/** Pair fusion: two molecule graphs and a score row become one graph whose
    node rows are molecule 1's atoms, molecule 2's atoms and a final score
    node, with the score node joined in both directions to every atom. */
module Fusion {
  import opened Graphs
  import opened Results

  /** Appends `pad` zero columns to every row. */
  function PadRows(rows: seq<seq<real>>, pad: nat): seq<seq<real>> {
    seq(|rows|, i requires 0 <= i < |rows| => rows[i] + Zeros(pad))
  }

  /** Adds `offset` to both endpoints of every edge. */
  function ShiftEdges(edges: seq<Edge>, offset: nat): seq<Edge> {
    seq(|edges|, k requires 0 <= k < |edges| => Edge(edges[k].src + offset, edges[k].dst + offset))
  }

  /** Joins nodes `lo .. lo+count-1` to node `hub`: first every edge into the
      hub, then every edge out of it. */
  function HubEdges(lo: nat, count: nat, hub: nat): seq<Edge> {
    seq(count, i requires 0 <= i < count => Edge(lo + i, hub))
      + seq(count, i requires 0 <= i < count => Edge(hub, lo + i))
  }

  /** Fuses two molecule graphs with a score row. Fails when the score row is
      narrower than the first molecule's atom rows (the padding width would be
      negative), or when the two molecules disagree on atom-row or bond-row
      width (the concatenations would be ragged). */
  function Fuse(g1: Graph, g2: Graph, score: seq<real>): (r: Result<Graph>)
    ensures r.Failure? <==>
      |score| < g1.nodeWidth || g2.nodeWidth != g1.nodeWidth || g2.edgeWidth != g1.edgeWidth
    ensures r.Success? ==>
      && r.value.nodeWidth == |score|
      && r.value.edgeWidth == g1.edgeWidth
      && |r.value.x| == |g1.x| + |g2.x| + 1
      && r.value.x[|g1.x| + |g2.x|] == score
    ensures r.Success? ==>
      && |r.value.edges| == |g1.edges| + |g2.edges| + 2 * |g1.x| + 2 * |g2.x|
      && |r.value.edgeAttr| == |g1.edgeAttr| + |g2.edgeAttr| + 2 * |g1.x| + 2 * |g2.x|
  {
    if |score| < g1.nodeWidth then Failure(NegativePadding(|score|, g1.nodeWidth))
    else if g2.nodeWidth != g1.nodeWidth then Failure(NodeWidthMismatch(g1.nodeWidth, g2.nodeWidth))
    else if g2.edgeWidth != g1.edgeWidth then Failure(EdgeWidthMismatch(g1.edgeWidth, g2.edgeWidth))
    else
      var pad := |score| - g1.nodeWidth;
      var n1 := |g1.x|;
      var n2 := |g2.x|;
      var hub := n1 + n2;
      Success(Graph(
        |score|,
        PadRows(g1.x, pad) + PadRows(g2.x, pad) + [score],
        g1.edges + ShiftEdges(g2.edges, n1) + HubEdges(0, n1, hub) + HubEdges(n1, n2, hub),
        g1.edgeWidth,
        g1.edgeAttr + g2.edgeAttr + OnesRows(2 * n1, g1.edgeWidth) + OnesRows(2 * n2, g2.edgeWidth)))
  }

  /** `row` is `orig` followed by zeros up to `width` columns. */
  predicate PaddedFrom(row: seq<real>, orig: seq<real>, width: nat) {
    && |orig| <= |row| == width
    && row[..|orig|] == orig
    && forall c :: |orig| <= c < width ==> row[c] == 0.0
  }

  /** Every atom row of the fused graph keeps its original entries as a prefix
      and is zero-padded to the score row's width. */
  lemma FusedNodeRows(g1: Graph, g2: Graph, score: seq<real>)
    requires Shaped(g1) && Shaped(g2)
    requires Fuse(g1, g2, score).Success?
    ensures forall i :: 0 <= i < |g1.x| ==> PaddedFrom(Fuse(g1, g2, score).value.x[i], g1.x[i], |score|)
    ensures forall j :: 0 <= j < |g2.x| ==> PaddedFrom(Fuse(g1, g2, score).value.x[|g1.x| + j], g2.x[j], |score|)
  {
    var c := Fuse(g1, g2, score).value;
    var pad := |score| - g1.nodeWidth;
    forall i | 0 <= i < |g1.x|
      ensures PaddedFrom(c.x[i], g1.x[i], |score|)
    {
      assert c.x[i] == g1.x[i] + Zeros(pad);
    }
    forall j | 0 <= j < |g2.x|
      ensures PaddedFrom(c.x[|g1.x| + j], g2.x[j], |score|)
    {
      assert c.x[|g1.x| + j] == g2.x[j] + Zeros(pad);
    }
  }

  /** The fused edge list starts with molecule 1's edges unchanged, followed by
      molecule 2's edges with both endpoints shifted past molecule 1's atoms;
      the feature list starts with both molecules' feature rows, unchanged and
      in order. */
  lemma FusedBondEdges(g1: Graph, g2: Graph, score: seq<real>)
    requires Fuse(g1, g2, score).Success?
    ensures Fuse(g1, g2, score).value.edges[..|g1.edges|] == g1.edges
    ensures forall j :: 0 <= j < |g2.edges| ==>
      Fuse(g1, g2, score).value.edges[|g1.edges| + j] == Edge(g2.edges[j].src + |g1.x|, g2.edges[j].dst + |g1.x|)
    ensures Fuse(g1, g2, score).value.edgeAttr[..|g1.edgeAttr|] == g1.edgeAttr
    ensures Fuse(g1, g2, score).value.edgeAttr[|g1.edgeAttr|..|g1.edgeAttr| + |g2.edgeAttr|] == g2.edgeAttr
  {
    var c := Fuse(g1, g2, score).value;
    assert c.edges[..|g1.edges|] == g1.edges;
    assert c.edgeAttr[..|g1.edgeAttr|] == g1.edgeAttr;
    assert c.edgeAttr[|g1.edgeAttr|..|g1.edgeAttr| + |g2.edgeAttr|] == g2.edgeAttr;
  }

  /** The score edges: after the bond edges come, for molecule 1, every
      `(i, hub)` then every `(hub, i)`, and then the same for molecule 2's
      shifted atoms; each has an all-ones feature row as wide as a bond row.
      Stated for one atom `a` of the fused graph. */
  lemma FusedHubEdges(g1: Graph, g2: Graph, score: seq<real>, a: nat)
    requires Aligned(g1) && Aligned(g2)
    requires Fuse(g1, g2, score).Success?
    requires a < |g1.x| + |g2.x|
    ensures var c, b, n1, n2 := Fuse(g1, g2, score).value, |g1.edges| + |g2.edges|, |g1.x|, |g2.x|;
      a < n1 ==>
        && c.edges[b + a] == Edge(a, n1 + n2)
        && c.edges[b + n1 + a] == Edge(n1 + n2, a)
        && c.edgeAttr[b + a] == c.edgeAttr[b + n1 + a] == Ones(g1.edgeWidth)
    ensures var c, b, n1, n2 := Fuse(g1, g2, score).value, |g1.edges| + |g2.edges|, |g1.x|, |g2.x|;
      n1 <= a ==>
        && c.edges[b + n1 + a] == Edge(a, n1 + n2)
        && c.edges[b + n1 + n2 + a] == Edge(n1 + n2, a)
        && c.edgeAttr[b + n1 + a] == c.edgeAttr[b + n1 + n2 + a] == Ones(g1.edgeWidth)
  {
  }

  /** The score node is joined in both directions to every atom of both
      molecules. */
  lemma HubJoinsEveryAtom(g1: Graph, g2: Graph, score: seq<real>, a: nat)
    requires Fuse(g1, g2, score).Success?
    requires a < |g1.x| + |g2.x|
    ensures Edge(a, |g1.x| + |g2.x|) in Fuse(g1, g2, score).value.edges
    ensures Edge(|g1.x| + |g2.x|, a) in Fuse(g1, g2, score).value.edges
  {
    var c := Fuse(g1, g2, score).value;
    var b, n1, n2 := |g1.edges| + |g2.edges|, |g1.x|, |g2.x|;
    if a < n1 {
      assert c.edges[b + a] == Edge(a, n1 + n2);
      assert c.edges[b + n1 + a] == Edge(n1 + n2, a);
    } else {
      var j := a - n1;
      assert c.edges[b + 2 * n1 + j] == Edge(a, n1 + n2);
      assert c.edges[b + 2 * n1 + n2 + j] == Edge(n1 + n2, a);
    }
  }

  /** The index partition of the fused graph: an edge stays inside molecule 1's
      atoms, or inside molecule 2's atoms, or has exactly one end at the score
      node; no index reaches past the score node. */
  predicate InPartition(e: Edge, n1: nat, n2: nat) {
    && e.src <= n1 + n2 && e.dst <= n1 + n2
    && (|| (e.src < n1 && e.dst < n1)
        || (n1 <= e.src < n1 + n2 && n1 <= e.dst < n1 + n2)
        || ((e.src == n1 + n2) != (e.dst == n1 + n2)))
  }

  /** Fusing graphs whose edges stay in range respects the partition: in particular no edge
      links molecule 1's atoms directly to molecule 2's. */
  lemma FusedPartition(g1: Graph, g2: Graph, score: seq<real>)
    requires EdgesInRange(g1) && EdgesInRange(g2)
    requires Fuse(g1, g2, score).Success?
    ensures forall k :: 0 <= k < |Fuse(g1, g2, score).value.edges| ==>
      InPartition(Fuse(g1, g2, score).value.edges[k], |g1.x|, |g2.x|)
  {
    var c := Fuse(g1, g2, score).value;
    var n1, n2 := |g1.x|, |g2.x|;
    var e1, e2 := |g1.edges|, |g2.edges|;
    forall k | 0 <= k < |c.edges|
      ensures InPartition(c.edges[k], n1, n2)
    {
      if k < e1 {
        assert c.edges[k] == g1.edges[k];
      } else if k < e1 + e2 {
        assert c.edges[k] == Edge(g2.edges[k - e1].src + n1, g2.edges[k - e1].dst + n1);
      } else if k < e1 + e2 + 2 * n1 {
        var i := k - e1 - e2;
        assert c.edges[k] == (if i < n1 then Edge(i, n1 + n2) else Edge(n1 + n2, i - n1));
      } else {
        var j := k - e1 - e2 - 2 * n1;
        assert c.edges[k] == (if j < n2 then Edge(n1 + j, n1 + n2) else Edge(n1 + n2, n1 + j - n2));
      }
    }
  }

  /** Fusing well-formed graphs yields a well-formed graph: rectangular rows of
      the score row's width, edges aligned with their feature rows, and every
      endpoint a node of the fused graph. */
  lemma FusedWellFormed(g1: Graph, g2: Graph, score: seq<real>)
    requires WellFormed(g1) && WellFormed(g2)
    requires Fuse(g1, g2, score).Success?
    ensures WellFormed(Fuse(g1, g2, score).value)
  {
    var c := Fuse(g1, g2, score).value;
    FusedNodeRows(g1, g2, score);
    FusedPartition(g1, g2, score);
    forall i | 0 <= i < |c.x|
      ensures |c.x[i]| == c.nodeWidth
    {
      if i < |g1.x| {
        assert PaddedFrom(c.x[i], g1.x[i], |score|);
      } else if i < |g1.x| + |g2.x| {
        assert PaddedFrom(c.x[|g1.x| + (i - |g1.x|)], g2.x[i - |g1.x|], |score|);
      }
    }
    forall k | 0 <= k < |c.edgeAttr|
      ensures |c.edgeAttr[k]| == c.edgeWidth
    {
      var a1, a2, n1 := |g1.edgeAttr|, |g2.edgeAttr|, |g1.x|;
      if k < a1 {
        assert c.edgeAttr[k] == g1.edgeAttr[k];
      } else if k < a1 + a2 {
        assert c.edgeAttr[k] == g2.edgeAttr[k - a1];
      } else if k < a1 + a2 + 2 * n1 {
        assert c.edgeAttr[k] == Ones(g1.edgeWidth);
      } else {
        assert c.edgeAttr[k] == Ones(g2.edgeWidth);
      }
    }
  }

  /** Each edge after the two molecules' bond edges joins the score node to
      one atom `a`. */
  lemma HubEdgeAt(g1: Graph, g2: Graph, score: seq<real>, c: Graph, k: nat) returns (a: nat)
    requires Fuse(g1, g2, score) == Success(c)
    requires |g1.edges| + |g2.edges| <= k < |c.edges|
    ensures a < |g1.x| + |g2.x|
    ensures c.edges[k] == Edge(a, |g1.x| + |g2.x|) || c.edges[k] == Edge(|g1.x| + |g2.x|, a)
  {
    var n1, n2 := |g1.x|, |g2.x|;
    var i := k - |g1.edges| - |g2.edges|;
    var hubs := HubEdges(0, n1, n1 + n2) + HubEdges(n1, n2, n1 + n2);
    assert c.edges[k] == hubs[i];
    if i < n1 {
      a := i;
    } else if i < 2 * n1 {
      a := i - n1;
    } else if i < 2 * n1 + n2 {
      a := n1 + (i - 2 * n1);
    } else {
      a := n1 + (i - 2 * n1 - n2);
    }
  }

  /** An edge taken from molecule 1 keeps its reverse in the fused graph. */
  lemma ReverseKeptFirst(g1: Graph, g2: Graph, score: seq<real>, c: Graph, k: nat)
    requires Symmetric(g1)
    requires Fuse(g1, g2, score) == Success(c)
    requires k < |g1.edges|
    ensures Reverse(c.edges[k]) in c.edges
  {
    FusedBondEdges(g1, g2, score);
    assert c.edges[k] == g1.edges[k];
    var m :| 0 <= m < |g1.edges| && g1.edges[m] == Reverse(g1.edges[k]);
    assert c.edges[m] == Reverse(c.edges[k]);
  }

  /** An edge taken from molecule 2 keeps its (shifted) reverse in the fused
      graph. */
  lemma ReverseKeptSecond(g1: Graph, g2: Graph, score: seq<real>, c: Graph, j: nat)
    requires Symmetric(g2)
    requires Fuse(g1, g2, score) == Success(c)
    requires j < |g2.edges|
    ensures Reverse(c.edges[|g1.edges| + j]) in c.edges
  {
    var n1, n2, e1 := |g1.x|, |g2.x|, |g1.edges|;
    var shifted := ShiftEdges(g2.edges, n1);
    var pre := g1.edges + shifted;
    assert c.edges == pre + (HubEdges(0, n1, n1 + n2) + HubEdges(n1, n2, n1 + n2));
    var m :| 0 <= m < |g2.edges| && g2.edges[m] == Reverse(g2.edges[j]);
    assert pre[e1 + j] == shifted[j];
    assert pre[e1 + m] == shifted[m];
    assert shifted[m] == Reverse(shifted[j]);
    assert c.edges[e1 + m] == Reverse(c.edges[e1 + j]);
  }

  /** Fusing symmetric graphs yields a symmetric graph. */
  lemma FusedSymmetric(g1: Graph, g2: Graph, score: seq<real>)
    requires Symmetric(g1) && Symmetric(g2)
    requires Fuse(g1, g2, score).Success?
    ensures Symmetric(Fuse(g1, g2, score).value)
  {
    var c := Fuse(g1, g2, score).value;
    var e1, e2 := |g1.edges|, |g2.edges|;
    forall k | 0 <= k < |c.edges|
      ensures Reverse(c.edges[k]) in c.edges
    {
      if k < e1 {
        ReverseKeptFirst(g1, g2, score, c, k);
      } else if k < e1 + e2 {
        ReverseKeptSecond(g1, g2, score, c, k - e1);
      } else {
        var a := HubEdgeAt(g1, g2, score, c, k);
        HubJoinsEveryAtom(g1, g2, score, a);
      }
    }
  }

  /** Where each part sits in a fused graph: atom counts, the atom-row width
      before padding, and the lengths of both molecules' edge and feature lists. */
  datatype Layout = Layout(atoms1: nat, atoms2: nat, atomWidth: nat, edges1: nat, edges2: nat, attrs1: nat, attrs2: nat)

  function LayoutOf(g1: Graph, g2: Graph): Layout {
    Layout(|g1.x|, |g2.x|, g1.nodeWidth, |g1.edges|, |g2.edges|, |g1.edgeAttr|, |g2.edgeAttr|)
  }

  function Unpad(row: seq<real>, width: nat): seq<real> {
    if width <= |row| then row[..width] else row
  }

  function UnpadRows(rows: seq<seq<real>>, width: nat): seq<seq<real>> {
    seq(|rows|, i requires 0 <= i < |rows| => Unpad(rows[i], width))
  }

  function Minus(a: nat, b: nat): nat {
    if b <= a then a - b else 0
  }

  function UnshiftEdges(edges: seq<Edge>, offset: nat): seq<Edge> {
    seq(|edges|, k requires 0 <= k < |edges| => Edge(Minus(edges[k].src, offset), Minus(edges[k].dst, offset)))
  }

  /** The parts of a fused graph: molecule 1's graph, molecule 2's graph and the
      score row. */
  datatype Parts = Parts(g1: Graph, g2: Graph, score: seq<real>)

  /** Takes a fused graph apart again, given its layout. */
  function Split(c: Graph, l: Layout): Parts
    requires |c.x| == l.atoms1 + l.atoms2 + 1
    requires l.edges1 + l.edges2 <= |c.edges|
    requires l.attrs1 + l.attrs2 <= |c.edgeAttr|
  {
    var n1, n2 := l.atoms1, l.atoms2;
    Parts(
      Graph(l.atomWidth, UnpadRows(c.x[..n1], l.atomWidth), c.edges[..l.edges1],
            c.edgeWidth, c.edgeAttr[..l.attrs1]),
      Graph(l.atomWidth, UnpadRows(c.x[n1..n1 + n2], l.atomWidth),
            UnshiftEdges(c.edges[l.edges1..l.edges1 + l.edges2], n1),
            c.edgeWidth, c.edgeAttr[l.attrs1..l.attrs1 + l.attrs2]),
      c.x[n1 + n2])
  }

  /** Splitting a fused graph gives back molecule 1's graph. */
  lemma SplitFirst(g1: Graph, g2: Graph, score: seq<real>, c: Graph)
    requires Shaped(g1)
    requires Fuse(g1, g2, score) == Success(c)
    ensures Split(c, LayoutOf(g1, g2)).g1 == g1
  {
    var p := Split(c, LayoutOf(g1, g2)).g1;
    var pad := |score| - g1.nodeWidth;
    forall i | 0 <= i < |g1.x|
      ensures p.x[i] == g1.x[i]
    {
      assert c.x[i] == g1.x[i] + Zeros(pad);
    }
    assert p.x == g1.x;
    assert p.edges == g1.edges;
    assert p.edgeAttr == g1.edgeAttr;
  }

  /** Splitting a fused graph gives back molecule 2's graph. */
  lemma SplitSecond(g1: Graph, g2: Graph, score: seq<real>, c: Graph)
    requires Shaped(g2)
    requires Fuse(g1, g2, score) == Success(c)
    ensures Split(c, LayoutOf(g1, g2)).g2 == g2
  {
    var p := Split(c, LayoutOf(g1, g2)).g2;
    var n1 := |g1.x|;
    var pad := |score| - g1.nodeWidth;
    forall j | 0 <= j < |g2.x|
      ensures p.x[j] == g2.x[j]
    {
      assert c.x[n1 + j] == g2.x[j] + Zeros(pad);
    }
    assert p.x == g2.x;
    forall k | 0 <= k < |g2.edges|
      ensures p.edges[k] == g2.edges[k]
    {
      assert c.edges[|g1.edges| + k] == Edge(g2.edges[k].src + n1, g2.edges[k].dst + n1);
    }
    assert p.edges == g2.edges;
    assert p.edgeAttr == g2.edgeAttr;
  }

  /** Fusion loses nothing: both molecule graphs and the score row can be read
      back from the fused graph. */
  lemma FuseSplitRoundTrip(g1: Graph, g2: Graph, score: seq<real>)
    requires Shaped(g1) && Shaped(g2)
    requires Fuse(g1, g2, score).Success?
    ensures Split(Fuse(g1, g2, score).value, LayoutOf(g1, g2)) == Parts(g1, g2, score)
  {
    var c := Fuse(g1, g2, score).value;
    SplitFirst(g1, g2, score, c);
    SplitSecond(g1, g2, score, c);
  }
}
