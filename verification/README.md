# Molecule-pair graph fusion, modelled in Dafny

This project models the graph-construction core of a drug-combination
pipeline. Each dataset row names two molecules in linear chemical notation and
six outcome metrics (CSS, Synergy_ZIP, Synergy_Bliss, Synergy_Loewe,
Synergy_HSA, Y). Each molecule is turned into an attributed graph. Every atom
is a node with the feature row `[atomic number, degree, hybridization]`. Every
bond `(a, b)` becomes the two directed edges `(a, b)` and `(b, a)`, and each of
them carries the bond's row `[bond order, in-ring flag]`. The two graphs are
then fused with one extra "catalyst score" node:

- atom rows are zero-padded to the width of the six-entry score row;
- node rows are concatenated as molecule 1, then molecule 2, then the score row;
- molecule 2's edge indices are shifted by `n1`;
- the score node, at index `n1 + n2`, is joined in both directions to every
  atom, and each such edge gets an all-ones feature row;
- edges and their feature rows are concatenated in the same order: molecule 1,
  shifted molecule 2, molecule 1's score edges, molecule 2's score edges.

Files:

- `graphs.dfy` (module `Graphs`): edges, graphs with explicit column counts,
  and the shape, alignment, range and symmetry predicates.
- `results.dfy` (module `Results`): the error taxonomy, `Option`, `Result`, and
  `CollectAll`, the stop-at-first-failure loop over rows.
- `molecules.dfy` (module `Molecules`): the abstract molecule, the two feature
  encoders and `MoleculeToGraph`.
- `fusion.dfy` (module `Fusion`): `Fuse`, its count, padding, layout,
  partition, well-formedness and symmetry lemmas, and `Split`, its inverse.
- `fusion_as_written.dfy` (module `FusionAsWritten`): the fusion with the
  source's shape reads, for the finding below.
- `pipeline.dfy` (module `Pipeline`): the per-row driver, with the structure
  parser as a parameter.

The model follows the code on these points:

- A five-entry score row with three-wide atom rows pads by two and succeeds.
  Only a score row narrower than the atom rows fails (`NegativePadding`).
- The run stops at the first failing row. It does not collect per-row
  failures (`Pipeline.ProcessAll`).
- The score edges of a molecule are grouped, not interleaved: first every
  `(i, hub)`, then every `(hub, i)`.

The one place where the model departs from the code is the bug listed under
"## Findings". The code cannot fuse a molecule that has no atoms or no bonds,
because it reads a column count off a matrix that has no rows. The main driver,
`Pipeline.ProcessRow`, uses the corrected `Fusion.Fuse`. The driver as written,
`Pipeline.ProcessRowAsWritten`, uses `FusionAsWritten.FuseAsWritten`.
`Pipeline.RowDriversCompared` proves where the two drivers agree and where
they differ.

## Model

| member | source | states |
|---|---|---|
| Molecules.AtomFeatureVector | training/catalyst.py:35-36 | an atom's row is three wide, every entry is a non-negative whole number, and it decodes to the atom (atomic number, degree, hybridization, in that order), so it is exactly those three numbers |
| Molecules.WholeRowIsExact | training/catalyst.py:36 | a three-wide row of whole-number entries equals the row of the atom it decodes to, so the encoder's contract fixes the row exactly |
| Molecules.BondFeatureVector | training/catalyst.py:38-39 | a bond's row is two wide, holds the bond order first and the ring flag second as 1 or 0 |
| Molecules.BondEdges | training/catalyst.py:28-29 | the edge list has two entries per bond, and bond `k` yields `(begin, end)` at `2k` and `(end, begin)` at `2k+1`, in bond order |
| Molecules.BondAttrs | training/catalyst.py:28-30 | the edge-feature list has two rows per bond, both equal to bond `k`'s feature row at `2k` and `2k+1`, each two wide |
| Molecules.MoleculeToGraph | training/catalyst.py:23-33 | one node row per atom in atom order, each a row of whole numbers decoding to that atom (so exactly its three numbers); edge list and feature list both twice the bond count; rows three and two wide |
| Molecules.BondPairLayout | training/catalyst.py:28-30 | bond `k`'s two edges are mutual reverses and carry the identical bond feature row |
| Molecules.MoleculeGraphEdges | training/catalyst.py:28-29 | `(u, v)` is an edge of the molecule's graph exactly when some bond joins `u` and `v` in one of its two orientations |
| Molecules.MoleculeGraphSymmetric | training/catalyst.py:29 | every directed edge of a molecule's graph has its reverse in the graph |
| Molecules.MoleculeGraphWellFormed | training/catalyst.py:24-30 | the graph's edges stay in the node range exactly when the molecule's bonds stay in its atom range |
| Molecules.MoleculeGraphRoundTrip | training/catalyst.py:23-39 | the molecule (atoms, bond endpoints, orders, ring flags) can be read back from its graph |
| Fusion.Fuse | training/catalyst.py:67-101 | fails exactly when the padding width is negative or the molecules' row widths disagree; otherwise `n1+n2+1` nodes, the score row last, `2b1+2b2+2n1+2n2` edges and as many feature rows for aligned inputs |
| Fusion.FusedNodeRows | training/catalyst.py:78-84 | each atom row of either molecule keeps its original entries as prefix and is zero-filled to the score row's width |
| Fusion.FusedBondEdges | training/catalyst.py:99-101 | molecule 1's edges and feature rows come first unchanged; molecule 2's edges follow with both ends shifted by `n1`, its feature rows copied in order |
| Fusion.FusedHubEdges | training/catalyst.py:86-97 | after the bond edges, each molecule contributes every `(atom, hub)` then every `(hub, atom)`, each with an all-ones row as wide as a bond row |
| Fusion.HubJoinsEveryAtom | training/catalyst.py:86-97 | for every atom of either molecule, both the edge to the score node and the edge from it are present |
| Fusion.HubEdgeAt | training/catalyst.py:86-100 | every edge after the bond edges joins the score node to one atom |
| Fusion.FusedPartition | training/catalyst.py:76-100 | when both inputs' edges stay in their node ranges, every fused edge lies inside molecule 1's range, inside molecule 2's range, or has exactly one end at the score node; no index passes the score node |
| Fusion.FusedWellFormed | training/catalyst.py:79-101 | fusing well-formed graphs gives a well-formed graph: rows of the score width, aligned edge features, endpoints in range |
| Fusion.FusedSymmetric | training/catalyst.py:86-100 | fusing graphs whose edges all have reverses gives a graph whose edges all have reverses |
| Fusion.FuseSplitRoundTrip | training/catalyst.py:79-101 | both molecule graphs and the score row can be read back from the fused graph |
| FusionAsWritten.FuseAsWritten | training/catalyst.py:79-97 | with the source's shape reads, a molecule without atoms or without bonds makes fusion fail; any success agrees with `Fuse` |
| FusionAsWritten.AsWrittenAgreesWhenBonded | training/catalyst.py:79-101 | when both molecules have atoms and bonds, the source's fusion equals the model's |
| FusionAsWritten.BondlessMoleculeRejectedAsWritten | training/catalyst.py:31-32 | a bondless molecule fails the source's fusion but fuses in the model, with two score edges per atom |
| FusionAsWritten.SingleAtomPair | training/catalyst.py:90 | one carbon atom paired with itself: the source fails; the model gives three nodes and the four score edges |
| Pipeline.ProcessRow | training/catalyst.py:58-84 | a row fails exactly when a notation does not parse, naming the first unparsed one; a success ends with the six metrics as the score row, six wide |
| Pipeline.ProcessRowAsWritten | training/catalyst.py:58-101 | the driver with the source's shape reads: a row fails when a notation does not parse or a parsed molecule has no bonds; any success equals the corrected driver's |
| Pipeline.RowDriversCompared | training/catalyst.py:64-101 | for well-formed molecules that both have bonds, the two drivers agree; when either molecule has no bonds, the source's driver fails and the corrected one succeeds |
| Pipeline.ProcessRowGraph | training/catalyst.py:60-101 | a parsed row gives `n1+n2+1` six-wide nodes, `2b1+2b2+2n1+2n2` aligned edges, symmetric; for well-formed molecules also well-formed and partitioned |
| Pipeline.ProcessAll | training/catalyst.py:57-105 | succeeds exactly when every row does, with one graph per row in row order; otherwise fails with the error of the first failing row |
| Pipeline.TwoDiatomicScenario | training/catalyst.py:67-101 | two two-atom, one-bond molecules with score 1..6 give five nodes, twelve edges and the score row at index 4 |

## Left out

- Reading the CSV file and the two `print` calls (training/catalyst.py:20-21, 107): file and console I/O.
- Parsing linear notation (training/catalyst.py:60-61): a foreign library call. It is the parameter `parse` of `Pipeline.ProcessRow`, returning `None` where the library returns no molecule.
- Chemistry: what atomic number, degree, hybridization, bond order and ring membership mean. They are opaque numbers supplied with the molecule. Degree is not tied to the bond list.
- `visualize` (training/catalyst.py:41-54): plotting.
- Tensor mechanics: dtypes, the `2 x E` transposed edge-index layout, and the `Data` wrapper. Edges are a sequence of index pairs, and each graph carries its two column counts explicitly.
- Single-precision floats: feature values are `real`. The source only copies them, pads them with 0 or sets them to 1. Rounding to 32 bits is not modelled.
- Determinism: every operation is a pure function, so equal inputs give equal graphs by construction.
- A score row of another length cannot arise: the driver always builds it from the six metric columns.
- Per-row failure isolation is not modelled: the program stops at its first exception.
- Pipeline.ProcessRow: uses the corrected `Fusion.Fuse` from the Findings row. So it does not fail on a parsed molecule without atoms (training/catalyst.py:79) or without bonds (training/catalyst.py:90, 97), as the source does. `Pipeline.ProcessRowAsWritten` models those failures.
- Pipeline.ProcessRowGraph: promises success for every parsed pair, including bondless or atomless molecules. This holds for the corrected driver, not for the source's (see `Pipeline.RowDriversCompared`).
- Pipeline.ProcessAll: runs the corrected driver on every row. The source's run additionally stops at the first row with a bondless or atomless molecule.

## Findings

| source | as written | input that shows it | evidently intended | confidence | as-written member | corrected member |
|---|---|---|---|---|---|---|
| training/catalyst.py:90 | the score-edge feature width is read as `graph1.edge_attr.shape[1]` (line 97 does the same for molecule 2). A molecule without bonds builds `edge_attr` from an empty list, so it has shape `(0,)` and no second dimension | a molecule of one carbon atom and no bonds, fused with itself and an all-zero score row | the bond-row width (2) is known for every molecule, so the pair yields three nodes and four all-ones score edges | high; not executed | FusionAsWritten.FuseAsWritten, exhibited by FusionAsWritten.SingleAtomPair | Fusion.Fuse, proved by FusionAsWritten.BondlessMoleculeRejectedAsWritten |
