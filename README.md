# Shrinking and inflating finite-element systems under boundary conditions

This project models the part of pyrit's nodal shape function that builds the
linear system a finite-element problem actually solves.

- **`shrink`** takes the assembled system `A x = b` and applies each kind of
  boundary condition in turn:
  - the Neumann load is added to the right-hand side;
  - the Robin matrix and vector are added to the system;
  - binary (periodic and antiperiodic) conditions append Lagrange
    multipliers in a saddle-point layout `[[A, B^T], [B, 0]]`;
  - floating conditions append multipliers the same way;
  - the unknowns fixed by Dirichlet conditions are eliminated last.

  It returns the reduced system, the eliminated indices, the number of
  multipliers, and the "support data" that `inflate` needs.
- **`inflate`** undoes this on a solution of the reduced system. It
  scatters the free entries and the Dirichlet values into a full vector,
  then drops the multipliers. When no support data is given, it recomputes
  it with `compute_support_data`.

The project also models three parts of the problem classes:

- the solver selection of `solve_linear_system`;
- the non-negative frequency of a harmonic problem;
- the preprocessing of the monitors of a transient problem.

Modules:

- `Base`: `Option`, `Result` and the errors the code raises.
- `Indices`:
  - `np.unique`, `np.setdiff1d(np.arange(n), ...)`, fancy indexing and
    `np.concatenate`;
  - the counting facts behind them.
- `Dense`: matrices as `seq<seq<real>>`, the saddle layout,
  `A[np.ix_(rows, cols)]` and dot products. Also how a dot product splits
  over the fixed indices and their complement.
- `Conditions`:
  - the conditions, their kinds, the mesh tables and the problem;
  - the loop that collects the nodes of a condition's regions.
- `BinaryConditions`, `FloatingConditions`, `DirichletConditions`: the
  `_calc_values_for_*` loops (as methods proved equal to functions) and
  the stages `shrink_binary`, `shrink_floating`, `shrink_dirichlet`.
- `Reducer`: `shrink_neumann`, `shrink_robin` and `shrink` with its support
  data.
- `Expander`: `inflate_dirichlet`, `inflate_floating`, `inflate_binary`,
  `compute_support_data` and `inflate`, with the round trip between
  shrinking and inflating.
- `Problems`: solver selection, the frequency setter and the monitor
  preprocessing.

Every error path of the modelled code whose input the data model can represent is an `Err` value. The inputs it cannot represent are listed under "## Left out". The error paths covered are:

- a missing key;
- an unknown region;
- `np.concatenate` or `vstack` of an empty list;
- a negative size in `np.ones`;
- an index outside the array;
- "Dimensions dont match";
- an unsupported value type;
- `NotImplementedError`;
- a negative frequency;
- an unknown solver.

## Model

All source paths are under `MAIN/Module/pyrit/source/pyrit/`. `NodalShapeFunction.py` is `shapefunction/NodalShapeFunction.py` and `Problem.py` is `problem/Problem.py`.

| member | source | states |
|---|---|---|
| Indices.Unique | MAIN/Module/pyrit/source/pyrit/shapefunction/NodalShapeFunction.py:772 | `np.unique`: the result is strictly ascending and holds exactly the elements of its input |
| Indices.Complement | MAIN/Module/pyrit/source/pyrit/shapefunction/NodalShapeFunction.py:560 | `np.setdiff1d(np.arange(n), fixed)`: strictly ascending, and holds exactly the indices below `n` that are not fixed |
| Indices.ComplementSize | MAIN/Module/pyrit/source/pyrit/shapefunction/NodalShapeFunction.py:560 | for duplicate-free fixed indices below `n`, the free and fixed indices number `n` together, and each index below `n` is in exactly one of them |
| Indices.Gather | MAIN/Module/pyrit/source/pyrit/shapefunction/NodalShapeFunction.py:563 | fancy indexing `x[idx]`: entry `j` of the result is `x[idx[j]]` |
| Indices.FlattenMembers | MAIN/Module/pyrit/source/pyrit/shapefunction/NodalShapeFunction.py:558 | an element of `np.concatenate(parts)` is exactly an element of one of the parts |
| Indices.FlattenDistinct | MAIN/Module/pyrit/source/pyrit/shapefunction/NodalShapeFunction.py:558 | duplicate-free parts with no common element concatenate to a duplicate-free list |
| Dense.Augment | MAIN/Module/pyrit/source/pyrit/shapefunction/NodalShapeFunction.py:454-455 | `hstack(vstack(A, B), vstack(B^T, 0))`: A top left, B^T top right, B bottom left, zeros bottom right |
| Dense.AugmentSaddle | MAIN/Module/pyrit/source/pyrit/shapefunction/NodalShapeFunction.py:506-508 | the augmented matrix and the right-hand side padded with zeros form the saddle system of `A`, `b` and `B` |
| Dense.SaddleEntry | MAIN/Module/pyrit/source/pyrit/shapefunction/NodalShapeFunction.py:454-456 | constraint entry `(i, col)` appears at `(n + i, col)` and at `(col, n + i)` of the saddle system, and the right-hand side is 0 there |
| Dense.SubMatrix | MAIN/Module/pyrit/source/pyrit/shapefunction/NodalShapeFunction.py:565 | `A[np.ix_(rows, cols)]`: entry `(i, j)` is `A[rows[i]][cols[j]]` |
| Dense.MatVec | MAIN/Module/pyrit/source/pyrit/shapefunction/NodalShapeFunction.py:563-564 | the matrix-vector product: entry `i` is the dot product of row `i` with the vector |
| Dense.DotSplit | MAIN/Module/pyrit/source/pyrit/shapefunction/NodalShapeFunction.py:563-565 | a dot product is the sum of its parts over the free indices and over the duplicate-free fixed indices; this is why eliminating the fixed unknowns is sound |
| Dense.DotAdd | MAIN/Module/pyrit/source/pyrit/shapefunction/NodalShapeFunction.py:413-416 | the dot product is linear in its first argument |
| Conditions.RegionNodes | MAIN/Module/pyrit/source/pyrit/shapefunction/NodalShapeFunction.py:762-771 | the nodes one region contributes all lie below the mesh's node bound |
| Conditions.CollectNodesSpec | MAIN/Module/pyrit/source/pyrit/shapefunction/NodalShapeFunction.py:762-771 | the region loop fails with a missing-region error exactly when a region is unknown; otherwise it reports whether any region contributed and collects exactly the union of the contributions |
| Conditions.ConditionNodes | MAIN/Module/pyrit/source/pyrit/shapefunction/NodalShapeFunction.py:772 | a condition's node list is strictly ascending and inside the mesh |
| Conditions.ConditionNodesSpec | MAIN/Module/pyrit/source/pyrit/shapefunction/NodalShapeFunction.py:761-772 | the node list exists exactly when every region is known and one of them contributes. The error is the unknown region or the empty concatenation, and the list holds exactly the contributed nodes |
| Conditions.RegionsOf | MAIN/Module/pyrit/source/pyrit/shapefunction/NodalShapeFunction.py:711 | `regions_of_bc[key]`: fails with KeyError exactly when the key is absent |
| BinaryConditions.GetBinary | MAIN/Module/pyrit/source/pyrit/shapefunction/NodalShapeFunction.py:672 | `get_bc(key)` read as a binary condition: a missing key is KeyError, and a condition of another kind fails for lack of its attributes |
| BinaryConditions.Iota | MAIN/Module/pyrit/source/pyrit/shapefunction/NodalShapeFunction.py:674 | `np.arange(len) + start` has entry `start + i` at `i` |
| BinaryConditions.Head | MAIN/Module/pyrit/source/pyrit/shapefunction/NodalShapeFunction.py:674-680 | the blocks of one condition are two well-formed coordinate lists, primary and then replica |
| BinaryConditions.BlocksFrom | MAIN/Module/pyrit/source/pyrit/shapefunction/NodalShapeFunction.py:671-681 | the blocks of the later conditions exist exactly when all of them are binary, with two blocks per condition |
| BinaryConditions.BinaryBlocks | MAIN/Module/pyrit/source/pyrit/shapefunction/NodalShapeFunction.py:647-682 | the result of `_calc_values_for_binary` exists exactly when every key names a binary condition, with two blocks per key |
| BinaryConditions.CalcValuesForBinary | MAIN/Module/pyrit/source/pyrit/shapefunction/NodalShapeFunction.py:667-682 | the accumulating loop, with its running `lines_previous`, computes `BinaryBlocks` |
| BinaryConditions.ConstraintMatrix | MAIN/Module/pyrit/source/pyrit/shapefunction/NodalShapeFunction.py:446-448 | the coo matrix resized to `m` by `n`: each entry is the sum of the coordinate values at that position |
| BinaryConditions.ShrinkBinary | MAIN/Module/pyrit/source/pyrit/shapefunction/NodalShapeFunction.py:419-457 | succeeds exactly when every condition is binary and some row number exists. The multiplier count is the largest row number plus one, and the result is the saddle system of the constraint matrix |
| BinaryConditions.EntryOfPair | MAIN/Module/pyrit/source/pyrit/shapefunction/NodalShapeFunction.py:671-681 | row `Offset(k) + t` of the accumulated blocks holds the value of pair `t` of condition `k`: the other conditions put nothing there |
| BinaryConditions.EntryBeforeOffset | MAIN/Module/pyrit/source/pyrit/shapefunction/NodalShapeFunction.py:681 | the blocks of later conditions put nothing in the rows of earlier ones |
| BinaryConditions.RowsOfPairs | MAIN/Module/pyrit/source/pyrit/shapefunction/NodalShapeFunction.py:674-681 | paired conditions hold two row numbers per primary node, and the largest of them is `Offset(|keys|) - 1` |
| BinaryConditions.BinaryMultiplierCount | MAIN/Module/pyrit/source/pyrit/shapefunction/NodalShapeFunction.py:446-449 | with paired conditions, `shrink_binary` succeeds exactly when some primary node exists, and adds one multiplier per primary node |
| BinaryConditions.ConstraintEntry | MAIN/Module/pyrit/source/pyrit/shapefunction/NodalShapeFunction.py:446-448 | entry `(Offset(k) + t, col)` of the constraint matrix is what pair `t` of condition `k` puts there |
| BinaryConditions.BinaryConstraintRow | MAIN/Module/pyrit/source/pyrit/shapefunction/NodalShapeFunction.py:443-457 | multiplier row `|b| + Offset(k) + t` reads `r[t] - v * p[t] = 0`: `-v` at the primary node, 1 at the replica, 0 elsewhere, and right-hand side 0. The column is its transpose |
| BinaryConditions.BinaryCountAsWritten | MAIN/Module/pyrit/source/pyrit/shapefunction/NodalShapeFunction.py:828-830 | `np.max(lines) + 1` over the list of row arrays fails on ragged arrays; where it succeeds it is the largest row number plus one |
| BinaryConditions.BinaryCount | MAIN/Module/pyrit/source/pyrit/shapefunction/NodalShapeFunction.py:828-830 | the intended count exists exactly when there is a row number, and it is the largest one plus one |
| BinaryConditions.BinaryCountMatchesShrink | MAIN/Module/pyrit/source/pyrit/shapefunction/NodalShapeFunction.py:449 | the intended count equals the number of multipliers `shrink_binary` adds |
| BinaryConditions.BinaryCountAsWrittenWhenHomogeneous | MAIN/Module/pyrit/source/pyrit/shapefunction/NodalShapeFunction.py:830 | when all row arrays have the same length, the code as written gives the intended count |
| BinaryConditions.RaggedBinaryCountFails | MAIN/Module/pyrit/source/pyrit/shapefunction/NodalShapeFunction.py:830 | for one condition with one pair and one with two, the intended count is 3 but the count as written fails |
| BinaryConditions.RaggedBinaryShrink | MAIN/Module/pyrit/source/pyrit/shapefunction/NodalShapeFunction.py:446-449 | `shrink_binary` adds 3 multipliers for those same conditions |
| FloatingConditions.FloatingNodes | MAIN/Module/pyrit/source/pyrit/shapefunction/NodalShapeFunction.py:711-723 | a floating condition's node list is strictly ascending and inside the mesh |
| FloatingConditions.FloatingNodeSets | MAIN/Module/pyrit/source/pyrit/shapefunction/NodalShapeFunction.py:708-725 | the node lists exist exactly when every condition's list does, one per condition, in order |
| FloatingConditions.CalcValuesForFloating | MAIN/Module/pyrit/source/pyrit/shapefunction/NodalShapeFunction.py:686-725 | the loop over the keys computes `FloatingNodeSets` |
| FloatingConditions.FirstFailure | MAIN/Module/pyrit/source/pyrit/shapefunction/NodalShapeFunction.py:710-723 | the first condition that fails decides the error |
| Conditions.FloatingFaceReadsEdges | MAIN/Module/pyrit/source/pyrit/shapefunction/NodalShapeFunction.py:717-722 | a floating condition on a region of dimension 2 takes the nodes of the edges tagged with it, exactly as dimension 1 does |
| FloatingConditions.TieValueCases | MAIN/Module/pyrit/source/pyrit/shapefunction/NodalShapeFunction.py:497-500 | on a sorted node list, row `t` of `matrix_slave - matrix_master` is +1 at `s[t]`, -1 at the last node and 0 elsewhere |
| FloatingConditions.FloatingBlock | MAIN/Module/pyrit/source/pyrit/shapefunction/NodalShapeFunction.py:494-500 | the block exists exactly when the node list is not empty and, with two nodes or more, inside the system; it has `|s| - 1` rows. The errors are a negative dimension and an index out of range |
| FloatingConditions.FloatingMatrix | MAIN/Module/pyrit/source/pyrit/shapefunction/NodalShapeFunction.py:502 | the stack of the blocks of the conditions from `i` on exists exactly when every one of those blocks does, with `sum(|s| - 1)` rows. The empty stack only ends the recursion, and `ShrinkFloating` refuses to stack no blocks |
| FloatingConditions.FloatingMatrixRow | MAIN/Module/pyrit/source/pyrit/shapefunction/NodalShapeFunction.py:502 | row `RowsBefore(k) + t` of the stack is row `t` of condition `k`'s block |
| FloatingConditions.ShrinkFloating | MAIN/Module/pyrit/source/pyrit/shapefunction/NodalShapeFunction.py:460-510 | succeeds exactly when there is a key and the node lists and the stack exist. An empty key list fails as `vstack([])` does at line 502. The multiplier count is `sum(|s| - 1)` and the result is the saddle system of the stack |
| FloatingConditions.FloatingConstraintRow | MAIN/Module/pyrit/source/pyrit/shapefunction/NodalShapeFunction.py:493-508 | multiplier row `|b| + RowsBefore(k) + t` reads `u[s[t]] - u[s[last]] = 0` with right-hand side 0; the column is its transpose |
| DirichletConditions.NodeValues | MAIN/Module/pyrit/source/pyrit/shapefunction/NodalShapeFunction.py:775-787 | values exist for a scalar, for a time-dependent value and for an array of matching size. Each value type gives its own values, and each error case has its own error: size mismatch, unsupported type, not implemented |
| DirichletConditions.ConditionData | MAIN/Module/pyrit/source/pyrit/shapefunction/NodalShapeFunction.py:757-787 | one condition's nodes are ascending and inside the mesh, with one value per node |
| DirichletConditions.Outcomes | MAIN/Module/pyrit/source/pyrit/shapefunction/NodalShapeFunction.py:756-787 | one lookup per key, in order |
| DirichletConditions.RawFromEntries | MAIN/Module/pyrit/source/pyrit/shapefunction/NodalShapeFunction.py:756-787 | collecting fails exactly when a lookup does, and otherwise holds each lookup's lists in order |
| DirichletConditions.CollectDirichlet | MAIN/Module/pyrit/source/pyrit/shapefunction/NodalShapeFunction.py:754-787 | the collecting loop computes `RawFrom(Outcomes(...))` |
| DirichletConditions.Kept | MAIN/Module/pyrit/source/pyrit/shapefunction/NodalShapeFunction.py:794-797 | `indices_keep` is ascending and holds exactly the positions whose node is not claimed yet |
| DirichletConditions.KeptAgrees | MAIN/Module/pyrit/source/pyrit/shapefunction/NodalShapeFunction.py:792-797 | the positions the loop keeps, built from the intersection and the cut positions, are `Kept` |
| DirichletConditions.CutMembers | MAIN/Module/pyrit/source/pyrit/shapefunction/NodalShapeFunction.py:798 | a cut keeps exactly the nodes not yet claimed |
| DirichletConditions.CutValues | MAIN/Module/pyrit/source/pyrit/shapefunction/NodalShapeFunction.py:798-799 | a cut of a sorted list stays sorted, and every kept node keeps its own value |
| DirichletConditions.CutClaimed | MAIN/Module/pyrit/source/pyrit/shapefunction/NodalShapeFunction.py:792-799 | the loop body computes `Cut` of the nodes `indices_tmp` holds |
| DirichletConditions.Resolve | MAIN/Module/pyrit/source/pyrit/shapefunction/NodalShapeFunction.py:790-800 | after `k` turns, `k` aligned node and value lists remain |
| DirichletConditions.ResolveIntersections | MAIN/Module/pyrit/source/pyrit/shapefunction/NodalShapeFunction.py:790-800 | the intersection loop, which updates the lists in place, computes `Resolve` |
| DirichletConditions.ResolveEarlierWins | MAIN/Module/pyrit/source/pyrit/shapefunction/NodalShapeFunction.py:790-800 | condition `j` keeps a node exactly when it asked for that node and no earlier condition did |
| DirichletConditions.ResolveDisjoint | MAIN/Module/pyrit/source/pyrit/shapefunction/NodalShapeFunction.py:790-800 | no node is kept by two conditions |
| DirichletConditions.ResolveCovers | MAIN/Module/pyrit/source/pyrit/shapefunction/NodalShapeFunction.py:790-800 | every node some condition asked for is kept by one of them |
| DirichletConditions.ResolveValues | MAIN/Module/pyrit/source/pyrit/shapefunction/NodalShapeFunction.py:798-799 | the resolved lists stay sorted, and each kept node carries the value its own condition gave it |
| DirichletConditions.SharedNodeExample | MAIN/Module/pyrit/source/pyrit/shapefunction/NodalShapeFunction.py:790-800 | of two conditions on node 3, the first keeps it with its value |
| DirichletConditions.DirichletData | MAIN/Module/pyrit/source/pyrit/shapefunction/NodalShapeFunction.py:729-802 | the result is one aligned node and value list per key; reading the first list of no condition fails |
| DirichletConditions.CalcValuesForDirichlet | MAIN/Module/pyrit/source/pyrit/shapefunction/NodalShapeFunction.py:754-802 | the collecting loop followed by the intersection loop computes `DirichletData` |
| DirichletConditions.DirichletDataOk | MAIN/Module/pyrit/source/pyrit/shapefunction/NodalShapeFunction.py:756-790 | the data exists exactly when there are keys and every condition yields nodes and values |
| DirichletConditions.DirichletDataNodes | MAIN/Module/pyrit/source/pyrit/shapefunction/NodalShapeFunction.py:756-800 | condition `j` keeps exactly the nodes of its own regions that no earlier condition's regions hold |
| DirichletConditions.DirichletDataValues | MAIN/Module/pyrit/source/pyrit/shapefunction/NodalShapeFunction.py:775-799 | each kept node has the value its own condition gave it |
| DirichletConditions.DirichletFixedDistinct | MAIN/Module/pyrit/source/pyrit/shapefunction/NodalShapeFunction.py:790-800 | the concatenated fixed nodes hold no index twice |
| DirichletConditions.Eliminate | MAIN/Module/pyrit/source/pyrit/shapefunction/NodalShapeFunction.py:560-565 | eliminating fixed indices succeeds exactly when they lie inside the system. The free indices are the complement, and the reduced system is square with one row per free index |
| DirichletConditions.EliminationKeepsEquations | MAIN/Module/pyrit/source/pyrit/shapefunction/NodalShapeFunction.py:563-565 | at every vector that takes the fixed values, each reduced equation at the free part has the residual of the original equation of its free unknown |
| DirichletConditions.ShrinkDirichlet | MAIN/Module/pyrit/source/pyrit/shapefunction/NodalShapeFunction.py:512-568 | succeeds exactly when the Dirichlet data exists and lies inside the system. The fixed indices and values are the concatenated lists and the free indices their complement; otherwise the error is an index out of range |
| DirichletConditions.ShrinkDirichletPartition | MAIN/Module/pyrit/source/pyrit/shapefunction/NodalShapeFunction.py:557-560 | the fixed and free indices split the unknowns: no index twice, every index exactly once |
| DirichletConditions.ShrinkDirichletKeepsEquations | MAIN/Module/pyrit/source/pyrit/shapefunction/NodalShapeFunction.py:557-565 | the reduced system holds at the free part exactly where the original equations of the free unknowns hold |
| Reducer.ShrinkNeumann | MAIN/Module/pyrit/source/pyrit/shapefunction/NodalShapeFunction.py:366-387 | the right-hand side plus the Neumann load, entry by entry; a shape mismatch fails |
| Reducer.ShrinkRobin | MAIN/Module/pyrit/source/pyrit/shapefunction/NodalShapeFunction.py:389-417 | the system plus the Robin matrix and vector, entry by entry; a shape mismatch fails |
| Reducer.ShrinkRobinResidual | MAIN/Module/pyrit/source/pyrit/shapefunction/NodalShapeFunction.py:413-416 | every residual of the Robin-shrunk system is the original residual plus the Robin residual |
| Reducer.Load | MAIN/Module/pyrit/source/pyrit/shapefunction/NodalShapeFunction.py:287-292 | the Neumann and Robin stages keep the system square, and do nothing when there are no such conditions |
| Reducer.BinaryStage | MAIN/Module/pyrit/source/pyrit/shapefunction/NodalShapeFunction.py:294-296 | the system grows by the binary multipliers, and stays as it is without binary conditions |
| Reducer.FloatingStage | MAIN/Module/pyrit/source/pyrit/shapefunction/NodalShapeFunction.py:298-301 | the system grows by the floating multipliers, and stays as it is without floating conditions |
| Reducer.Constrain | MAIN/Module/pyrit/source/pyrit/shapefunction/NodalShapeFunction.py:287-301 | after the first four stages the system is square, with size `|b|` plus both multiplier counts |
| Reducer.Reduce | MAIN/Module/pyrit/source/pyrit/shapefunction/NodalShapeFunction.py:303-321 | the Dirichlet stage fails exactly when the elimination does. The support data carries both multiplier counts, and Dirichlet entries exactly when there are Dirichlet conditions. `indices_not_dof` is the fixed indices, or empty |
| Reducer.Shrink | MAIN/Module/pyrit/source/pyrit/shapefunction/NodalShapeFunction.py:274-321 | `shrink` succeeds exactly when every stage does. The multiplier count is the sum of the binary and floating counts, and the result's Dirichlet support and eliminated indices are as above |
| Reducer.ShrinkWithoutConditions | MAIN/Module/pyrit/source/pyrit/shapefunction/NodalShapeFunction.py:280-321 | without conditions, `shrink` returns the system unchanged, with no eliminated indices and no multipliers |
| Reducer.EliminationSplits | MAIN/Module/pyrit/source/pyrit/shapefunction/NodalShapeFunction.py:557-560 | the Dirichlet support splits the constrained unknowns |
| Reducer.ReduceConsistent | MAIN/Module/pyrit/source/pyrit/shapefunction/NodalShapeFunction.py:303-319 | the support data of the last stage is consistent with the constrained system; the reduced and eliminated unknowns add up to its size |
| Reducer.ShrinkConsistent | MAIN/Module/pyrit/source/pyrit/shapefunction/NodalShapeFunction.py:274-321 | the support data `shrink` returns is consistent with the system of `|b|` unknowns plus the multipliers, and the eliminated indices are duplicate-free |
| Reducer.ShrinkKeepsEquations | MAIN/Module/pyrit/source/pyrit/shapefunction/NodalShapeFunction.py:303-306 | the reduced system has, at the free part, the residuals the constrained system has on its free rows |
| Expander.SlicePrefix | MAIN/Module/pyrit/source/pyrit/shapefunction/NodalShapeFunction.py:619 | Python's `s[:stop]` on any integer `stop`: its length (a negative stop counts from the end, and the stop is clamped) and that it is a prefix |
| Expander.DropMultipliers | MAIN/Module/pyrit/source/pyrit/shapefunction/NodalShapeFunction.py:604-639 | `solution[:len(solution) - m]` is the prefix that the last `m` entries complete; a negative `m` keeps everything |
| Expander.DropAppended | MAIN/Module/pyrit/source/pyrit/shapefunction/NodalShapeFunction.py:619 | dropping as many entries as were appended gives back the original |
| Expander.AssignAt | MAIN/Module/pyrit/source/pyrit/shapefunction/NodalShapeFunction.py:598-599 | without repeated indices, `out[idx] = vals` puts each value at its own index |
| Expander.AssignElsewhere | MAIN/Module/pyrit/source/pyrit/shapefunction/NodalShapeFunction.py:598-599 | indices that are not assigned keep their value |
| Expander.Scatter | MAIN/Module/pyrit/source/pyrit/shapefunction/NodalShapeFunction.py:598-599 | the array assignment computes `Assign` in place |
| Expander.InflateDirichletSpec | MAIN/Module/pyrit/source/pyrit/shapefunction/NodalShapeFunction.py:575-601 | succeeds exactly when both assignments broadcast and are in range. The error is that of the first check that fails, in the order the code makes them |
| Expander.InflateDirichlet | MAIN/Module/pyrit/source/pyrit/shapefunction/NodalShapeFunction.py:597-601 | the array code computes `InflateDirichletSpec` |
| Expander.ScatteredAt | MAIN/Module/pyrit/source/pyrit/shapefunction/NodalShapeFunction.py:597-599 | a fixed index holds its Dirichlet value; a free index that is not fixed holds its solution entry |
| Expander.ScatteredRestores | MAIN/Module/pyrit/source/pyrit/shapefunction/NodalShapeFunction.py:597-599 | with disjoint index lists, both assignments can be read back |
| Expander.InflateDirichletRoundTrip | MAIN/Module/pyrit/source/pyrit/shapefunction/NodalShapeFunction.py:575-601 | inflating the free part of a vector that has the Dirichlet values gives back the vector |
| Expander.InflateDirichletRestores | MAIN/Module/pyrit/source/pyrit/shapefunction/NodalShapeFunction.py:575-601 | inflating a reduced solution of the right size succeeds, and the result holds the solution at the free indices and the values at the fixed ones |
| Expander.DirichletSupportFor | MAIN/Module/pyrit/source/pyrit/shapefunction/NodalShapeFunction.py:837-847 | the Dirichlet support data exists exactly when there are Dirichlet conditions, with duplicate-free fixed indices and one value each |
| Expander.ComputeSupportData | MAIN/Module/pyrit/source/pyrit/shapefunction/NodalShapeFunction.py:804-855 | computes `SupportDataFor`. The binary count is the corrected one (see "## Findings" and "## Left out") |
| Expander.BinarySupport | MAIN/Module/pyrit/source/pyrit/shapefunction/NodalShapeFunction.py:824-830 | the binary count is 0 without binary conditions. Otherwise it exists exactly when every condition is binary and some row number exists, and it is one more than the largest row number |
| Expander.ComputeBinaryCount | MAIN/Module/pyrit/source/pyrit/shapefunction/NodalShapeFunction.py:824-830 | computes `BinarySupport` |
| Expander.FloatingSupport | MAIN/Module/pyrit/source/pyrit/shapefunction/NodalShapeFunction.py:825-835 | the floating count is 0 without floating conditions. Otherwise it exists exactly when every floating condition has its node list |
| Expander.ComputeFloatingCount | MAIN/Module/pyrit/source/pyrit/shapefunction/NodalShapeFunction.py:825-835 | computes `FloatingSupport` |
| Expander.ComputeDirichletSupport | MAIN/Module/pyrit/source/pyrit/shapefunction/NodalShapeFunction.py:837-847 | computes `DirichletSupportFor` |
| Expander.BinaryStageMatches | MAIN/Module/pyrit/source/pyrit/shapefunction/NodalShapeFunction.py:828-830 | the recomputed binary count is the one the binary stage of `shrink` produced |
| Expander.FloatingStageMatches | MAIN/Module/pyrit/source/pyrit/shapefunction/NodalShapeFunction.py:832-835 | the recomputed floating count is the one the floating stage produced |
| Expander.EliminationSupport | MAIN/Module/pyrit/source/pyrit/shapefunction/NodalShapeFunction.py:837-847 | the Dirichlet support recomputed from the size of the reduced solution is what the elimination returned. `size + |fixed|` recovers the size of the constrained system |
| Expander.DirichletStageMatches | MAIN/Module/pyrit/source/pyrit/shapefunction/NodalShapeFunction.py:837-847 | the same holds for the Dirichlet entry of the support data `shrink` returns |
| Expander.SupportDataMatchesShrink | MAIN/Module/pyrit/source/pyrit/shapefunction/NodalShapeFunction.py:804-855 | the support data computed from the reduced size equals the support data `shrink` returned |
| Expander.Inflate | MAIN/Module/pyrit/source/pyrit/shapefunction/NodalShapeFunction.py:323-362 | `inflate` computes `InflateSpec`: it uses the given support data or recomputes it, and then runs the Dirichlet, floating and binary stages. The recomputation uses the corrected binary count (see "## Left out") |
| Expander.InflateWithoutConditions | MAIN/Module/pyrit/source/pyrit/shapefunction/NodalShapeFunction.py:351-362 | without conditions, inflating returns the solution as it is |
| Expander.ExpandRoundTrip | MAIN/Module/pyrit/source/pyrit/shapefunction/NodalShapeFunction.py:351-354 | the Dirichlet stage of inflating the free part gives back the full vector |
| Expander.DropStagesRoundTrip | MAIN/Module/pyrit/source/pyrit/shapefunction/NodalShapeFunction.py:356-360 | dropping the floating and then the binary multipliers leaves the original unknowns |
| Expander.InflateRoundTrip | MAIN/Module/pyrit/source/pyrit/shapefunction/NodalShapeFunction.py:323-362 | with consistent support data, given or recomputed, inflating the free part gives back the first `n` entries |
| Expander.ShrinkInflateRoundTrip | MAIN/Module/pyrit/source/pyrit/shapefunction/NodalShapeFunction.py:274-362 | shrink then inflate: the free part of a constrained vector with the Dirichlet values, inflated with the support data of `shrink` or with none, gives back the original unknowns |
| Expander.EliminatedSolutionSolves | MAIN/Module/pyrit/source/pyrit/shapefunction/NodalShapeFunction.py:563-599 | a solution of the eliminated system, once inflated, takes the fixed values and satisfies every original equation of a free unknown |
| Expander.ResidualsVanish | MAIN/Module/pyrit/source/pyrit/shapefunction/NodalShapeFunction.py:563-565 | where the reduced residuals vanish, the original residuals they equal vanish too |
| Problems.SelectSolver | MAIN/Module/pyrit/source/pyrit/problem/Problem.py:88-127 | a falsy solver becomes "spsolve": the fallback `kwargs.get('solver', 'spsolve')` never finds the key, because `solver` is a named parameter. An unknown right-hand-side type is refused first; otherwise a callable, "spsolve", an iterative name or "pardiso" selects its solver, and any other name is SolverUnknownError |
| Problems.DefaultSolverIsDirect | MAIN/Module/pyrit/source/pyrit/problem/Problem.py:88-89 | every falsy solver argument (none, or an empty name) selects the direct solver |
| Problems.UnknownNameRefused | MAIN/Module/pyrit/source/pyrit/problem/Problem.py:126-127 | a non-empty name outside the known ones is refused |
| Problems.HarmonicProblem.constructor | MAIN/Module/pyrit/source/pyrit/problem/Problem.py:372 | the frequency starts as None |
| Problems.HarmonicProblem.SetFrequency | MAIN/Module/pyrit/source/pyrit/problem/Problem.py:380-391 | a negative frequency is refused and leaves the stored one unchanged; otherwise it is stored, so the stored frequency is never negative |
| Problems.NewHarmonicProblem | MAIN/Module/pyrit/source/pyrit/problem/Problem.py:347-373 | construction succeeds exactly for a non-negative frequency, which it stores |
| Problems.ArangeSpec | MAIN/Module/pyrit/source/pyrit/problem/Problem.py:465 | `np.arange(0, n, k)` holds exactly the multiples of `k` below `n`, ascending |
| Problems.StepSchedule | MAIN/Module/pyrit/source/pyrit/problem/Problem.py:464-474 | a step schedule exists exactly for a positive step and some time steps. A zero step is refused by `np.arange`, and an empty range fails at `tmp[-1]` |
| Problems.StepScheduleEnds | MAIN/Module/pyrit/source/pyrit/problem/Problem.py:465-470 | the schedule reads 0, k, 2k, … and ends with the last time step |
| Problems.StepScheduleOrdered | MAIN/Module/pyrit/source/pyrit/problem/Problem.py:465-470 | the schedule is strictly increasing and lies among the time steps |
| Problems.StepScheduleCovers | MAIN/Module/pyrit/source/pyrit/problem/Problem.py:465 | every multiple of `k` below `n` is scheduled |
| Problems.StepScheduleLength | MAIN/Module/pyrit/source/pyrit/problem/Problem.py:469-470 | the last step is appended exactly when `k` does not divide `n - 1` |
| Problems.Preprocess | MAIN/Module/pyrit/source/pyrit/problem/Problem.py:462-485 | one monitor succeeds exactly when its step schedule exists and a named monitor is available. The schedule is every step, the kept object or the step schedule; the handler is the problem's method or the object given |
| Problems.MonitorsPreprocessing | MAIN/Module/pyrit/source/pyrit/problem/Problem.py:457-489 | the loop computes `MonitorsSpec`; no monitors give an empty mapping |
| Problems.PreprocessAllOk | MAIN/Module/pyrit/source/pyrit/problem/Problem.py:461-489 | preprocessing succeeds exactly when every monitor does |
| Problems.PreprocessAllFailed | MAIN/Module/pyrit/source/pyrit/problem/Problem.py:461-489 | the first failure is the result |
| Problems.PreprocessAllKeys | MAIN/Module/pyrit/source/pyrit/problem/Problem.py:461-487 | the keys of the result are the names given |
| Problems.PreprocessAllValues | MAIN/Module/pyrit/source/pyrit/problem/Problem.py:487 | under each name is the preprocessing of the last monitor given under it |

## Left out

- The integrators `neumann_term` and `robin_terms` are not part of this model. Their vector and matrix are parameters (`Reducer.Terms`), and the integration order is not modelled.
- Sparse formats (coo, csr) are not modelled; matrices are dense sequences of real rows. Complex values are not modelled either: the pardiso branch that splits a complex system into real and imaginary parts, and complex Dirichlet values, are outside the model.
- Logging is not modelled. This includes the warning about incomplete support data.
- The solvers themselves are not modelled. `SelectSolver` only decides which one runs, and `Problems.SelectSolver` takes the right-hand-side type check as a boolean.
- `BdryCond`, `Regions` and `Mesh` are not part of this model beyond the data these functions read. That data is the conditions by ID, their kinds, `regions_of_bc`, region dimensions and the connectivity tables. A region of dimension other than 0, 1 or 2 contributes nothing.
- Attribute errors: reading `primary_nodes` or `is_constant` from a condition of the wrong kind is the single error `WrongKind`.
- Callables and other objects (a custom schedule, a monitor function, a time-dependent value) are opaque: an identifier, or the value the callable returns at the call.
- Expander.InflateDirichletSpec: entries that neither assignment reaches are zero, where `np.empty` leaves them unspecified.
- Expander.Assign: repeated indices take the last value assigned, which is what numpy does for a plain assignment. The broadcast check is made before the range check.
- Expander.InflateSpec: support data is either all present or absent. A dictionary missing some key, or an empty one, is the same as none.
- Reducer.Shrink: requires a square system (`IsSystem`) and well-formed mesh tables (`Mesh.Valid`). With other shapes the code fails inside scipy.
- Problems.HarmonicProblem: only the frequency of a harmonic problem is modelled, not the rest of the object. The angular frequency and the solve method are left out.
- Problems.SelectSolver: only a string, a callable or a falsy value is modelled as the solver argument. A falsy argument always becomes "spsolve", because the keyword arguments cannot carry a second `solver`.
- Expander.BinarySupport: when `inflate` gets no support data, the binary multiplier count is recomputed with the corrected count `BinaryCount`, not with `np.max(lines) + 1` as written (line 830). On binary conditions with different numbers of primary nodes, the code raises where the model succeeds. The as-written count and the failing input are `BinaryConditions.BinaryCountAsWritten` and `BinaryConditions.RaggedBinaryCountFails`. Where all row arrays have one length, `BinaryConditions.BinaryCountAsWrittenWhenHomogeneous` shows the two counts agree.
- Expander.ComputeBinaryCount: computes the corrected count, for the same reason as `Expander.BinarySupport`.
- Expander.ComputeSupportData: uses the corrected binary count, for the same reason as `Expander.BinarySupport`. `Expander.SupportDataFor` does the same.
- Expander.Inflate: recomputing absent support data uses the corrected binary count, so on ragged binary conditions it succeeds where the code raises. `Expander.InflateSpec` and the `None` case of `Expander.ShrinkInflateRoundTrip` do the same.
- Problems.Preprocess: a list or tuple monitor with fewer than two entries, which fails with IndexError at `monitor[0]` or `monitor[1]` (Problem.py lines 465 and 478), cannot be represented: `Monitor` is a pair or a plain function. The AttributeError raised when an available monitor name maps to a method the problem does not have (line 483) is not modelled either: `available` stands for the names whose method exists.

## Findings

| source | as written | input that shows it | evidently intended | confidence | as-written member | corrected member |
|---|---|---|---|---|---|---|
| MAIN/Module/pyrit/source/pyrit/shapefunction/NodalShapeFunction.py:830 | `np.max(lines) + 1` over the list of row arrays built by `_calc_values_for_binary`. numpy refuses it when the arrays differ in length (an inhomogeneous shape) | two binary conditions, one with one primary node and one with two: the row arrays are `[0], [0], [1, 2], [1, 2]`. `shrink` adds 3 multipliers (`RaggedBinaryShrink`), but `inflate` without support data cannot recompute that count | the largest row number over all arrays plus one, `np.max(np.concatenate(lines)) + 1`, as `shrink_binary` counts | not executed | BinaryConditions.BinaryCountAsWritten, BinaryConditions.RaggedBinaryCountFails | BinaryConditions.BinaryCount, BinaryConditions.BinaryCountMatchesShrink |
