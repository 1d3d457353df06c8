# Flip-gain ranking and Chimera tiling, modelled in Dafny

This project models the two utilities of `hades.utils` that the repository's
unit tests exercise (`tests/test_utils.py`), and proves properties of them.

- **`flip_energy_gains(bqm, sample)`** (module `Gains`).
  - It ranks the variables of a binary quadratic model by single-flip energy gain.
  - The gain of a variable is the change in energy when that variable alone is flipped.
    On spin variables this is `-2 * s_v * (h_v + sum of J_uv * s_u)`.
    The function `Gains.Gain` defines it as the flip change of the value times `Gains.LocalField`.
  - The result is one `(gain, variable)` pair per variable, in descending order of the pair.
    Equal gains therefore list the larger label first, and labels compare as Python strings (module `Labels`).
  - A sample that leaves a variable out, or gives it a value outside the model's domain, is refused.
- **`chimera_tiles(bqm, ti, tj, tt)`** (module `Tiles`, on top of the coordinate model in `Lattice`).
  - Each variable sits on a node `(i, j, u, k)` of a Chimera lattice of shape `(M, N, T)`.
  - The variable goes into the tile `(i div ti, j div tj, k div tt)`.
  - Inside that tile it is mapped to the one-element chain `[local index]`.
    The local index is the linear index `((i' * tj + j') * 2 + u) * tt + k'` of the local coordinate `(i mod ti, j mod tj, u, k mod tt)`.
  - The functions that define these are `Lattice.LinearIndex` (the native and local index formula), `Tiles.TileOf` (the tile key) and `Tiles.LocalIndex`.
  - The tiler is a method. It fills the tile map one variable at a time, and its loop invariant is "the map is the tiling of the variables placed so far".
  - Non-positive tile dimensions are a configuration error. A variable without a node of the lattice is a topology error.

Modules `GainExamples` and `TileExamples` restate each assertion of the unit tests as a lemma, or as a method that calls the tiler.

## Model

| member | source | states |
|---|---|---|
| Lattice.CoordinateOfLinearIndex | tests/test_utils.py:38-44 | Decoding the linear index of any node of the shape gives that node back, so integer labels name nodes. |
| Lattice.LinearIndexOfCoordinate | tests/test_utils.py:38-44 | Every index below M*N*2*T decodes to a node of the shape whose linear index is that index: the index is a bijection onto [0, M*N*2*T). |
| Lattice.LinearIndexBound | tests/test_utils.py:46 | The linear index of a node of the shape is below M*N*2*T. |
| Labels.StrLessIrreflexive | tests/test_utils.py:33-34 | No label sorts before itself. |
| Labels.StrLessTransitive | tests/test_utils.py:33-34 | Label order is transitive. |
| Labels.StrLessTotal | tests/test_utils.py:33-34 | Any two distinct labels are ordered one way or the other, so ties in gain are always broken. |
| Gains.Flip | tests/test_utils.py:16-21 | Flipping a value of the domain gives the other value of the domain. |
| Gains.FlipDelta | tests/test_utils.py:16-21 | The change of a flipped value is flip(x) - x, and it is never zero inside the domain. |
| Gains.FirstInvalid | tests/test_utils.py:18 | No error exactly when every listed variable has a value in the domain. Otherwise the error names a listed variable: a missing one, or one present with a value outside the domain. |
| Gains.GainIsEnergyDelta | tests/test_utils.py:17-19 | For every variable of a well-formed model and a valid sample, the gain equals energy(sample with v flipped) - energy(sample), and the flipped sample is still valid. |
| Gains.LinearEnergyDelta | tests/test_utils.py:17-19 | Changing the value of x changes the linear energy by bias(x) times the change. |
| Gains.QuadraticEnergyDelta | tests/test_utils.py:17-19 | Changing the value of x changes the quadratic energy by the change times the neighbour sum of x, with both orientations of each pair counted. |
| Gains.RanksBeforeTotal | tests/test_utils.py:29-34 | Any two pairs are comparable in the ranking order. |
| Gains.RanksBeforeTransitive | tests/test_utils.py:29-34 | The ranking order is transitive. |
| Gains.RanksBeforeAntisymmetric | tests/test_utils.py:29-34 | Two pairs that each rank before the other are equal. |
| Gains.InsertKeepsDescending | tests/test_utils.py:19 | Inserting a pair into a descending list keeps it descending. |
| Gains.Sort | tests/test_utils.py:19 | The sorted list is a permutation of the input and is in descending (gain, label) order. |
| Gains.DescendingUnique | tests/test_utils.py:19-34 | Two descending arrangements of the same multiset of pairs are equal. |
| Gains.FlipEnergyGains | tests/test_utils.py:16-34 | Error exactly when the sample is not valid. The error names a model variable that is missing or out of domain. On success the result is descending and is a permutation of the (gain, variable) pairs of the model's variables. |
| Gains.RankingCoversEachVariableOnce | tests/test_utils.py:16-34 | The ranking has one entry per model variable: every entry is a model variable carrying its gain, which is the energy change of its flip; every variable appears; no label repeats. |
| Gains.RankingIsTheDescendingArrangement | tests/test_utils.py:27-34 | On a valid sample, a list is the result if and only if it is descending and a permutation of the gain pairs. |
| Gains.RankingIgnoresVariableOrder | tests/test_utils.py:11-14 | Listing the model's variables in another order leaves the success of the call, and a successful result, unchanged. |
| Gains.NegationKeepsRanking | tests/test_utils.py:18-21 | On a spin model without linear biases, negating every spin of the sample leaves the result unchanged, errors included. |
| GainExamples.Triangle | tests/test_utils.py:10-14 | The two triangle models of the tests are well formed. |
| GainExamples.TriangleGains | tests/test_utils.py:10-14 | The gains of a, b and c on a triangle with ab = bc = 1 and ca given, at any sample. |
| GainExamples.TriangleRanking | tests/test_utils.py:16-34 | On a triangle, any descending arrangement of the three gains is the ranking. |
| GainExamples.NotAllFlipC | tests/test_utils.py:18-19 | notall at (1, 1, -1) ranks [(4, c), (0, b), (0, a)]. |
| GainExamples.NotAllFlipCNegated | tests/test_utils.py:20-21 | notall at (-1, -1, 1) ranks [(4, c), (0, b), (0, a)]. |
| GainExamples.NotBAllEquallyBad | tests/test_utils.py:23-25 | notb at (1, -1, 1) ranks [(4, c), (4, b), (4, a)]. |
| GainExamples.NotAllAllEquallyGood | tests/test_utils.py:28-30 | notall at all-ones ranks [(-4, c), (-4, b), (-4, a)]. |
| GainExamples.NotBFlipBWorst | tests/test_utils.py:32-34 | notb at all-ones ranks [(0, c), (0, a), (-4, b)]. |
| GainExamples.MissingVariableRefused | tests/test_utils.py:18 | notall with c left out of the sample is refused, naming c. |
| GainExamples.OutOfDomainRefused | tests/test_utils.py:18 | notall with b set to 2 is refused, naming b. |
| Tiles.LocalCoord | tests/test_utils.py:46 | The local coordinate of a node is a node of the tile shape. |
| Tiles.LocalIndexBound | tests/test_utils.py:67-68 | Every local index is below ti*tj*2*tt. |
| Tiles.PlacementInjective | tests/test_utils.py:45-46 | Two nodes with the same tile and the same local index are the same node. |
| Tiles.NodeAtPlaced | tests/test_utils.py:55-56 | For every tile key and every local index below ti*tj*2*tt there is a node with that tile and that local index. |
| Tiles.ChimeraTiles | tests/test_utils.py:40-46 | A configuration error exactly when a tile dimension is not positive. Otherwise, a topology error exactly when some variable has no node of the lattice, and else the tiling of the variables. |
| Tiles.TilingUnique | tests/test_utils.py:40-44 | The tiling of a set of variables is unique, so the result does not depend on the order in which variables are placed. |
| Tiles.TilingPartitions | tests/test_utils.py:43-44 | The tiles together hold exactly the model's variables, and no variable is in two tiles. |
| Tiles.LocalIndicesInRange | tests/test_utils.py:67-68 | Every tile's set of local indices is a subset of [0, ti*tj*2*tt). |
| Tiles.ChainsDistinctInTile | tests/test_utils.py:45-46 | Within a tile, distinct variables on distinct nodes get distinct chains. |
| Tiles.BelowCeil | tests/test_utils.py:62-65 | x < ceil(a / d) exactly when x * d < a. |
| Tiles.GridSize | tests/test_utils.py:62-65 | An a by b by w grid of tile keys has a*b*w keys. |
| Tiles.WholeLatticeTileCount | tests/test_utils.py:58-65 | When the variables cover the whole lattice, the tile keys are exactly the grid ceil(M/ti) by ceil(N/tj) by ceil(T/tt), and there are that product many tiles. |
| Tiles.EvenTilesAreFull | tests/test_utils.py:48-56 | When ti, tj and tt divide M, N and T and the variables cover the lattice, each tile's local indices are exactly [0, ti*tj*2*tt). |
| Tiles.IndexLabelsCoverLattice | tests/test_utils.py:38-44 | The integer labels 0 .. M*N*2*T-1 all resolve, name every node, and name distinct nodes. |
| TileExamples.LetterLabelsCoverLattice | tests/test_utils.py:70-78 | The one-letter labels of a lattice of at most 26 nodes all resolve and name every node. |
| TileExamples.TileIndexLattice | tests/test_utils.py:38-68 | On an integer-labelled lattice, the tiler places every node and yields ceil(M/ti)*ceil(N/tj)*ceil(T/tt) tiles with local indices in range. The tiles are full when the tile shape divides the lattice. |
| TileExamples.SingleTarget | tests/test_utils.py:37-46 | (4, 4, 4) in 1x1x4 tiles gives 16 tiles holding all 128 nodes, and each tile's local indices are exactly 0 .. 7. |
| TileExamples.EvenDivisor | tests/test_utils.py:48-56 | (4, 4, 4) in 2x2x4 tiles gives 4 tiles holding all 128 nodes, and each tile's local indices are exactly 0 .. 31. |
| TileExamples.UnevenDivisor | tests/test_utils.py:58-68 | (3, 3, 4) in 2x2x3 tiles gives 8 tiles holding all 72 nodes, with local indices below 24. |
| TileExamples.StringLabels | tests/test_utils.py:70-85 | (2, 2, 3) labelled a .. x, in 1x1x4 tiles, gives 4 tiles holding all 24 labels, with local indices below 8. |

## Left out

- The implementation module `hades.utils` is not part of this model. Both operations are modelled from the behaviour the unit tests require, together with the formulas above.
- The `dimod.BinaryQuadraticModel` container is replaced by the `Model` datatype: variables, linear biases, interactions, offset and domain. Its constructors (`from_qubo`, `empty`, `add_interaction`) are left out. `WellFormed` states what the container guarantees.
- `dnx.chimera_graph` is left out. The tiling tests' variable sets are given directly: the integer range [0, M*N*2*T), or the first M*N*2*T letters. The tiler reads only the variables, so the interactions of those models are not modelled.
- Recovering lattice coordinates for labels that are not linear indices needs a topology-matching step that this model does not describe. It is the parameter `coordOf` of `ChimeraTiles`. For integer labels, `IndexCoord` decodes the linear index. For the letter labels of the string test, `LetterCoord` decodes the letter's position in the alphabet, which is one valid labelling; the tiling results hold for any `coordOf` that covers the lattice.
- Gains are exact integers rather than floats (4.0 in the tests is 4 here). Linear and quadratic biases are integers too, so real-valued biases are not modelled.
- Tiles.ChimeraTiles: the lattice shape `(M, N, T)` is an argument given by the caller, together with `coordOf`. Inferring the shape from the model's graph is not modelled.
- Tiles.ChimeraTiles: each tile's embedding maps a variable to its chain `[local index]`, following tests/test_utils.py:44 (variables are the keys) and :46 (the chain's first element is the local index). It is not modelled as the inverse map from a local index to a sequence of labels. When `coordOf` gives distinct variables distinct nodes (`Injective`, as in `ChainsDistinctInTile`), that inverse never holds more than one label. When two variables share a node, both sit in the same tile with the same chain.
- Tiles.ChimeraTiles: a variable whose coordinate falls outside the lattice shape is also a topology error.
- Gains.FlipEnergyGains: variable labels are strings, and ties in gain are broken by string order (`Labels.StrLess`). Python's numeric order on integer labels, and the error Python raises when it compares an integer label with a string label, are not modelled.
- Gains.FlipEnergyGains: entries of the sample for variables the model does not have are ignored, not refused.
- Gains.RankingIgnoresVariableOrder: it equates the two results only when they succeed. On failure, both calls fail, but the variable named in the error can differ, because the first invalid variable depends on the order.
- Python's ordering of dictionary keys in the tile map is not modelled. The map is unordered, and `TilingUnique` shows that its contents do not depend on the order of placement.
