/** The per-row driver: parse both molecules of a dataset row, build their
    graphs, assemble the six-entry score row and fuse. The structure parser is
    a parameter. */
module Pipeline {
  import opened Graphs
  import opened Results
  import opened Molecules
  import opened Fusion
  import opened FusionAsWritten

  /** One dataset row: two molecules in linear notation and six outcome
      metrics. */
  datatype PairRecord = PairRecord(
    drug1: string,
    drug2: string,
    css: real,
    synergyZip: real,
    synergyBliss: real,
    synergyLoewe: real,
    synergyHsa: real,
    y: real)

  const ScoreWidth: nat := 6

  /** The score row, in column order CSS, ZIP, Bliss, Loewe, HSA, Y. */
  function ScoreVector(row: PairRecord): seq<real> {
    [row.css, row.synergyZip, row.synergyBliss, row.synergyLoewe, row.synergyHsa, row.y]
  }

  /** Turns one row into its combined graph. A notation the parser rejects
      fails the row, the first drug checked first. */
  function ProcessRow(row: PairRecord, parse: string -> Option<Molecule>): (r: Result<Graph>)
    ensures r.Failure? <==> parse(row.drug1).None? || parse(row.drug2).None?
    ensures r.Failure? ==>
      r.error == InvalidStructure(if parse(row.drug1).None? then row.drug1 else row.drug2)
    ensures r.Success? ==>
      && r.value.nodeWidth == ScoreWidth
      && |r.value.x| >= 1
      && r.value.x[|r.value.x| - 1] == [row.css, row.synergyZip, row.synergyBliss, row.synergyLoewe, row.synergyHsa, row.y]
  {
    match parse(row.drug1)
    case None => Failure(InvalidStructure(row.drug1))
    case Some(m1) =>
      match parse(row.drug2)
      case None => Failure(InvalidStructure(row.drug2))
      case Some(m2) => Fuse(MoleculeToGraph(m1), MoleculeToGraph(m2), ScoreVector(row))
  }

  /** The per-row driver with the source's shape reads: besides a notation
      that does not parse, a parsed molecule without atoms or without bonds
      also fails the row. */
  function ProcessRowAsWritten(row: PairRecord, parse: string -> Option<Molecule>): (r: Result<Graph>)
    ensures parse(row.drug1).None? || parse(row.drug2).None? ==> r.Failure?
    ensures (exists m :: (parse(row.drug1) == Some(m) || parse(row.drug2) == Some(m)) && |m.bonds| == 0) ==> r.Failure?
    ensures r.Success? ==> ProcessRow(row, parse) == r
  {
    match parse(row.drug1)
    case None => Failure(InvalidStructure(row.drug1))
    case Some(m1) =>
      match parse(row.drug2)
      case None => Failure(InvalidStructure(row.drug2))
      case Some(m2) => FuseAsWritten(MoleculeToGraph(m1), MoleculeToGraph(m2), ScoreVector(row))
  }

  /** The two drivers agree on rows whose molecules both parse, are well
      formed and have bonds; a parsed bondless molecule fails as written but not in the
      model. */
  lemma RowDriversCompared(row: PairRecord, parse: string -> Option<Molecule>, m1: Molecule, m2: Molecule)
    requires parse(row.drug1) == Some(m1) && parse(row.drug2) == Some(m2)
    ensures |m1.bonds| > 0 && |m2.bonds| > 0 && WellFormedMolecule(m1) && WellFormedMolecule(m2) ==>
      ProcessRowAsWritten(row, parse) == ProcessRow(row, parse)
    ensures |m1.bonds| == 0 || |m2.bonds| == 0 ==>
      ProcessRowAsWritten(row, parse).Failure? && ProcessRow(row, parse).Success?
  {
    if |m1.bonds| > 0 && |m2.bonds| > 0 && WellFormedMolecule(m1) && WellFormedMolecule(m2) {
      assert m1.bonds[0].begin < |m1.atoms|;
      assert m2.bonds[0].begin < |m2.atoms|;
    }
  }

  /** The shape of a row's combined graph: node and edge counts in terms of the
      two molecules, every node row six wide, edges aligned with their feature
      rows, and for well-formed molecules the partition and the symmetry of the
      edge list. */
  lemma ProcessRowGraph(row: PairRecord, parse: string -> Option<Molecule>, m1: Molecule, m2: Molecule)
    requires parse(row.drug1) == Some(m1) && parse(row.drug2) == Some(m2)
    ensures ProcessRow(row, parse).Success?
    ensures var c := ProcessRow(row, parse).value;
      && |c.x| == |m1.atoms| + |m2.atoms| + 1
      && |c.edges| == |c.edgeAttr| == 2 * |m1.bonds| + 2 * |m2.bonds| + 2 * |m1.atoms| + 2 * |m2.atoms|
      && Shaped(c) && c.nodeWidth == ScoreWidth && c.edgeWidth == BondWidth
      && Symmetric(c)
    ensures WellFormedMolecule(m1) && WellFormedMolecule(m2) ==>
      var c := ProcessRow(row, parse).value;
      && WellFormed(c)
      && forall k :: 0 <= k < |c.edges| ==> InPartition(c.edges[k], |m1.atoms|, |m2.atoms|)
  {
    var g1, g2 := MoleculeToGraph(m1), MoleculeToGraph(m2);
    var c := ProcessRow(row, parse).value;
    assert Fuse(g1, g2, ScoreVector(row)) == Success(c);
    MoleculeGraphSymmetric(m1);
    MoleculeGraphSymmetric(m2);
    FusedSymmetric(g1, g2, ScoreVector(row));
    FusedNodeRows(g1, g2, ScoreVector(row));
    forall i | 0 <= i < |c.x|
      ensures |c.x[i]| == ScoreWidth
    {
      if i < |g1.x| {
        assert PaddedFrom(c.x[i], g1.x[i], ScoreWidth);
      } else if i < |g1.x| + |g2.x| {
        assert PaddedFrom(c.x[|g1.x| + (i - |g1.x|)], g2.x[i - |g1.x|], ScoreWidth);
      }
    }
    forall k | 0 <= k < |c.edgeAttr|
      ensures |c.edgeAttr[k]| == BondWidth
    {
      var a1, a2, n1 := |g1.edgeAttr|, |g2.edgeAttr|, |g1.x|;
      if k < a1 {
        assert c.edgeAttr[k] == g1.edgeAttr[k];
      } else if k < a1 + a2 {
        assert c.edgeAttr[k] == g2.edgeAttr[k - a1];
      } else {
        assert c.edgeAttr[k] == Ones(BondWidth);
      }
    }
    if WellFormedMolecule(m1) && WellFormedMolecule(m2) {
      MoleculeGraphWellFormed(m1);
      MoleculeGraphWellFormed(m2);
      FusedWellFormed(g1, g2, ScoreVector(row));
      FusedPartition(g1, g2, ScoreVector(row));
    }
  }

  /** Processes the rows in order. The first failing row ends the run with its
      error; otherwise there is one combined graph per row, in row order. */
  function ProcessAll(rows: seq<PairRecord>, parse: string -> Option<Molecule>): (r: Result<seq<Graph>>)
    ensures r.Success? <==> forall i :: 0 <= i < |rows| ==> ProcessRow(rows[i], parse).Success?
    ensures r.Success? ==>
      && |r.value| == |rows|
      && forall i :: 0 <= i < |rows| ==> ProcessRow(rows[i], parse) == Success(r.value[i])
    ensures r.Failure? ==>
      exists i :: (0 <= i < |rows| && ProcessRow(rows[i], parse) == Failure(r.error)
        && forall j :: 0 <= j < i ==> ProcessRow(rows[j], parse).Success?)
  {
    CollectAll(rows, row => ProcessRow(row, parse))
  }

  /** The first concrete case: two two-atom, one-bond molecules and the score
      row 1..6 give five nodes, twelve edges and the score row at index 4. */
  lemma TwoDiatomicScenario(row: PairRecord, parse: string -> Option<Molecule>)
    requires ScoreVector(row) == [1.0, 2.0, 3.0, 4.0, 5.0, 6.0]
    requires parse(row.drug1) == Some(Molecule([Atom(6, 1, 4), Atom(8, 1, 4)], [Bond(0, 1, 1.0, false)]))
    requires parse(row.drug2) == Some(Molecule([Atom(7, 1, 3), Atom(7, 1, 3)], [Bond(0, 1, 3.0, false)]))
    ensures ProcessRow(row, parse).Success?
    ensures |ProcessRow(row, parse).value.x| == 5
    ensures |ProcessRow(row, parse).value.edges| == 12
    ensures ProcessRow(row, parse).value.x[4] == [1.0, 2.0, 3.0, 4.0, 5.0, 6.0]
  {
  }
}
