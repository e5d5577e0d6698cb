/** The fusion step as the source writes it, where the column counts of the
    feature matrices are read off the matrices themselves. A matrix built from
    an empty list has no column dimension, so a molecule without atoms or
    without bonds makes the step fail. */
module FusionAsWritten {
  import opened Graphs
  import opened Results
  import opened Molecules
  import opened Fusion

  /** Fusion with the source's shape reads: molecule 1's atom-row width, both
      molecules' padded atom blocks and both molecules' bond-row widths are
      only available when the corresponding matrix has rows. */
  function FuseAsWritten(g1: Graph, g2: Graph, score: seq<real>): (r: Result<Graph>)
    ensures (|g1.x| == 0 || |g2.x| == 0 || |g1.edgeAttr| == 0 || |g2.edgeAttr| == 0) ==> r.Failure?
    ensures r.Success? ==> Fuse(g1, g2, score) == r
  {
    if |g1.x| == 0 then Failure(MissingDimension)
    else if |score| < g1.nodeWidth then Failure(NegativePadding(|score|, g1.nodeWidth))
    else if |g2.x| == 0 then Failure(MissingDimension)
    else if g2.nodeWidth != g1.nodeWidth then Failure(NodeWidthMismatch(g1.nodeWidth, g2.nodeWidth))
    else if |g1.edgeAttr| == 0 || |g2.edgeAttr| == 0 then Failure(MissingDimension)
    else Fuse(g1, g2, score)
  }

  /** When both molecules have atoms and bonds, the source's fusion and the
      model's agree. */
  lemma AsWrittenAgreesWhenBonded(g1: Graph, g2: Graph, score: seq<real>)
    requires |g1.x| > 0 && |g2.x| > 0 && |g1.edgeAttr| > 0 && |g2.edgeAttr| > 0
    ensures FuseAsWritten(g1, g2, score) == Fuse(g1, g2, score)
  {
  }

  /** A molecule without bonds (a single atom, say) makes the source's fusion
      fail, while the model fuses it: the combined graph still gets two score
      edges per atom. */
  lemma BondlessMoleculeRejectedAsWritten(m1: Molecule, m2: Molecule, score: seq<real>)
    requires |m1.bonds| == 0 || |m2.bonds| == 0
    requires |score| >= AtomWidth
    ensures FuseAsWritten(MoleculeToGraph(m1), MoleculeToGraph(m2), score).Failure?
    ensures Fuse(MoleculeToGraph(m1), MoleculeToGraph(m2), score).Success?
    ensures |Fuse(MoleculeToGraph(m1), MoleculeToGraph(m2), score).value.edges|
      == 2 * |m1.bonds| + 2 * |m2.bonds| + 2 * |m1.atoms| + 2 * |m2.atoms|
  {
  }

  /** The concrete case: one carbon atom with no bonds, fused with itself and
      an all-zero score row. The source fails; the model yields three nodes and
      four score edges. */
  lemma SingleAtomPair()
    ensures var g := MoleculeToGraph(Molecule([Atom(6, 0, 4)], []));
      && FuseAsWritten(g, g, Zeros(6)).Failure?
      && Fuse(g, g, Zeros(6)).Success?
      && |Fuse(g, g, Zeros(6)).value.x| == 3
      && Fuse(g, g, Zeros(6)).value.edges == [Edge(0, 2), Edge(2, 0), Edge(1, 2), Edge(2, 1)]
  {
    var g := MoleculeToGraph(Molecule([Atom(6, 0, 4)], []));
    var c := Fuse(g, g, Zeros(6)).value;
    assert c.edges == HubEdges(0, 1, 2) + HubEdges(1, 1, 2);
  }
}
