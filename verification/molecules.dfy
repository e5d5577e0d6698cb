/** Single-molecule graph building: every atom becomes a node carrying its
    three-wide feature row, every bond becomes two directed edges carrying the
    bond's two-wide feature row twice. */
module Molecules {
  import opened Graphs

  /** An atom as the structure parser reports it. The three numbers are opaque
      here: atomic number, number of bonded neighbours, and the ordinal of the
      hybridization class. */
  datatype Atom = Atom(atomicNum: nat, degree: nat, hybridization: nat)

  /** A bond between the atoms at positions `begin` and `end`, with its order
      (1.0, 1.5, 2.0, 3.0, ...) and whether it lies on a ring. */
  datatype Bond = Bond(begin: nat, end: nat, order: real, inRing: bool)

  /** A parsed molecule: atoms in parser order, bonds in parser order. */
  datatype Molecule = Molecule(atoms: seq<Atom>, bonds: seq<Bond>)

  /** Bond endpoints name atoms of the molecule (the parser guarantees this). */
  predicate WellFormedMolecule(m: Molecule) {
    forall k :: 0 <= k < |m.bonds| ==> m.bonds[k].begin < |m.atoms| && m.bonds[k].end < |m.atoms|
  }

  const AtomWidth: nat := 3
  const BondWidth: nat := 2

  /** Reads a non-negative whole number back from a feature entry. */
  function NatOf(v: real): nat {
    if v < 0.0 then 0 else v.Floor
  }

  /** Reads an atom back from a feature row. */
  function AtomOfRow(row: seq<real>): Atom
    requires |row| >= AtomWidth
  {
    Atom(NatOf(row[0]), NatOf(row[1]), NatOf(row[2]))
  }

  /** A three-wide row of whole-number entries is exactly the row of the atom
      it decodes to. */
  lemma WholeRowIsExact(r: seq<real>)
    requires |r| == AtomWidth
    requires forall c :: 0 <= c < |r| ==> WholeEntry(r[c])
    ensures r == [AtomOfRow(r).atomicNum as real, AtomOfRow(r).degree as real, AtomOfRow(r).hybridization as real]
  {
  }

  /** Reads a ring flag back from a feature entry. */
  function FlagOf(v: real): bool {
    v != 0.0
  }

  /** A feature entry that holds a non-negative whole number exactly. */
  predicate WholeEntry(v: real) {
    0.0 <= v && v == v.Floor as real
  }

  /** The atom's feature row `[atomic number, degree, hybridization]`: three
      whole-number entries that decode to the atom, so the row is exactly the
      atom's three numbers. */
  function AtomFeatureVector(a: Atom): (r: seq<real>)
    ensures |r| == AtomWidth
    ensures forall c :: 0 <= c < |r| ==> WholeEntry(r[c])
    ensures AtomOfRow(r) == a
  {
    [a.atomicNum as real, a.degree as real, a.hybridization as real]
  }

  /** The bond's feature row `[order, in-ring flag]` with the flag as 1 or 0;
      the row is two wide and determines the order and the ring flag. */
  function BondFeatureVector(b: Bond): (r: seq<real>)
    ensures |r| == BondWidth
    ensures r[0] == b.order && FlagOf(r[1]) == b.inRing
    ensures r[1] == 0.0 || r[1] == 1.0
  {
    [b.order, if b.inRing then 1.0 else 0.0]
  }

  /** The directed edges of the bonds, in bond order: `(a, b)` then `(b, a)`
      for each bond. */
  function BondEdges(bonds: seq<Bond>): (r: seq<Edge>)
    ensures |r| == 2 * |bonds|
    ensures forall k :: 0 <= k < |bonds| ==>
      r[2 * k] == Edge(bonds[k].begin, bonds[k].end) && r[2 * k + 1] == Edge(bonds[k].end, bonds[k].begin)
  {
    if |bonds| == 0 then []
    else
      var rest := BondEdges(bonds[1..]);
      assert forall k :: 1 <= k < |bonds| ==> bonds[k] == bonds[1..][k - 1];
      [Edge(bonds[0].begin, bonds[0].end), Edge(bonds[0].end, bonds[0].begin)] + rest
  }

  /** The edge feature rows of the bonds, aligned with `BondEdges`: each bond's
      row twice, in bond order. */
  function BondAttrs(bonds: seq<Bond>): (r: seq<seq<real>>)
    ensures |r| == 2 * |bonds|
    ensures forall j :: 0 <= j < |r| ==> |r[j]| == BondWidth
    ensures forall k :: 0 <= k < |bonds| ==>
      r[2 * k] == BondFeatureVector(bonds[k]) && r[2 * k + 1] == BondFeatureVector(bonds[k])
  {
    if |bonds| == 0 then []
    else
      var rest := BondAttrs(bonds[1..]);
      assert forall k :: 1 <= k < |bonds| ==> bonds[k] == bonds[1..][k - 1];
      [BondFeatureVector(bonds[0]), BondFeatureVector(bonds[0])] + rest
  }

  /** The molecule's graph: node `i` is atom `i`; bond `k` yields edges `2k`
      and `2k+1`. */
  function MoleculeToGraph(m: Molecule): (g: Graph)
    ensures g.nodeWidth == AtomWidth && g.edgeWidth == BondWidth && Shaped(g)
    ensures |g.x| == |m.atoms|
    ensures forall i :: 0 <= i < |m.atoms| ==> AtomOfRow(g.x[i]) == m.atoms[i]
    ensures forall i, c :: 0 <= i < |m.atoms| && 0 <= c < |g.x[i]| ==> WholeEntry(g.x[i][c])
    ensures |g.edges| == |g.edgeAttr| == 2 * |m.bonds|
  {
    Graph(
      AtomWidth,
      seq(|m.atoms|, i requires 0 <= i < |m.atoms| => AtomFeatureVector(m.atoms[i])),
      BondEdges(m.bonds),
      BondWidth,
      BondAttrs(m.bonds))
  }

  /** Bond `k` of the molecule contributes edge `(u, v)` in one of its two
      directions. */
  predicate Joins(b: Bond, u: nat, v: nat) {
    (b.begin == u && b.end == v) || (b.end == u && b.begin == v)
  }

  /** Each bond yields the pair `(a, b), (b, a)` at positions `2k, 2k+1`, and
      both carry the bond's feature row. */
  lemma BondPairLayout(m: Molecule, k: nat)
    requires k < |m.bonds|
    ensures MoleculeToGraph(m).edges[2 * k] == Edge(m.bonds[k].begin, m.bonds[k].end)
    ensures MoleculeToGraph(m).edges[2 * k + 1] == Reverse(MoleculeToGraph(m).edges[2 * k])
    ensures MoleculeToGraph(m).edgeAttr[2 * k] == MoleculeToGraph(m).edgeAttr[2 * k + 1] == BondFeatureVector(m.bonds[k])
  {
  }

  /** The directed edges of the molecule's graph are exactly the two
      orientations of its bonds. */
  lemma MoleculeGraphEdges(m: Molecule, u: nat, v: nat)
    ensures Edge(u, v) in MoleculeToGraph(m).edges <==> exists k :: 0 <= k < |m.bonds| && Joins(m.bonds[k], u, v)
  {
    var edges := MoleculeToGraph(m).edges;
    if Edge(u, v) in edges {
      var j :| 0 <= j < |edges| && edges[j] == Edge(u, v);
      var k := j / 2;
      assert j == 2 * k || j == 2 * k + 1;
      assert Joins(m.bonds[k], u, v);
    }
    if exists k :: 0 <= k < |m.bonds| && Joins(m.bonds[k], u, v) {
      var k :| 0 <= k < |m.bonds| && Joins(m.bonds[k], u, v);
      if m.bonds[k].begin == u && m.bonds[k].end == v {
        assert edges[2 * k] == Edge(u, v);
      } else {
        assert edges[2 * k + 1] == Edge(u, v);
      }
    }
  }

  /** Every edge of the molecule's graph comes with its reverse. */
  lemma MoleculeGraphSymmetric(m: Molecule)
    ensures Symmetric(MoleculeToGraph(m))
  {
    var edges := MoleculeToGraph(m).edges;
    forall j | 0 <= j < |edges|
      ensures Reverse(edges[j]) in edges
    {
      var k := j / 2;
      if j == 2 * k {
        assert Reverse(edges[j]) == edges[2 * k + 1];
      } else {
        assert Reverse(edges[j]) == edges[2 * k];
      }
    }
  }

  /** The graph's edges stay inside the node range exactly when the molecule's
      bonds stay inside its atom range; a well-formed molecule gives a
      well-formed graph. */
  lemma MoleculeGraphWellFormed(m: Molecule)
    ensures WellFormedMolecule(m) <==> EdgesInRange(MoleculeToGraph(m))
    ensures WellFormedMolecule(m) <==> WellFormed(MoleculeToGraph(m))
  {
    var g := MoleculeToGraph(m);
    if WellFormedMolecule(m) {
      forall j | 0 <= j < |g.edges|
        ensures g.edges[j].src < |g.x| && g.edges[j].dst < |g.x|
      {
        var k := j / 2;
        if j == 2 * k {
          assert g.edges[j] == Edge(m.bonds[k].begin, m.bonds[k].end);
        } else {
          assert j == 2 * k + 1;
          assert g.edges[j] == Edge(m.bonds[k].end, m.bonds[k].begin);
        }
      }
    }
    if EdgesInRange(g) {
      forall k | 0 <= k < |m.bonds|
        ensures m.bonds[k].begin < |m.atoms| && m.bonds[k].end < |m.atoms|
      {
        assert g.edges[2 * k] == Edge(m.bonds[k].begin, m.bonds[k].end);
      }
    }
  }

  /** Reads a molecule back from a graph built by `MoleculeToGraph`: one atom
      per node row, one bond per even-numbered edge and its feature row. */
  function MoleculeOfGraph(g: Graph): Molecule
    requires forall i :: 0 <= i < |g.x| ==> |g.x[i]| >= AtomWidth
    requires |g.edgeAttr| == |g.edges|
    requires forall k :: 0 <= k < |g.edgeAttr| ==> |g.edgeAttr[k]| >= BondWidth
  {
    Molecule(
      seq(|g.x|, i requires 0 <= i < |g.x| => AtomOfRow(g.x[i])),
      seq(|g.edges| / 2, k requires 0 <= k < |g.edges| / 2 =>
        Bond(g.edges[2 * k].src, g.edges[2 * k].dst, g.edgeAttr[2 * k][0], FlagOf(g.edgeAttr[2 * k][1]))))
  }

  /** Building the graph loses nothing: the molecule can be read back from it. */
  lemma MoleculeGraphRoundTrip(m: Molecule)
    ensures MoleculeOfGraph(MoleculeToGraph(m)) == m
  {
    var g := MoleculeToGraph(m);
    var m' := MoleculeOfGraph(g);
    assert m'.atoms == m.atoms;
    forall k | 0 <= k < |m.bonds|
      ensures m'.bonds[k] == m.bonds[k]
    {
      BondPairLayout(m, k);
    }
    assert m'.bonds == m.bonds;
  }
}
