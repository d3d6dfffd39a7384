# Nuclear-network bookkeeping in Dafny

This project models the bookkeeping at the heart of a nuclear reaction-network toolkit and proves properties of that model. The toolkit is made of the C libraries wn_matrix, libnucnet and libnuceq and the NucNet Tools C++ helpers built on them. The model covers these parts:

- **Sparse matrices** (`WnMatrix.c`). A map from 1-based (row, column) positions to values. The model covers element assignment and update, block insertion and extraction, the transpose, scaling, adding to the diagonal, and inserting and removing rows and columns with index shifting. It also covers the row-major sorted export and the COO, CSR and arrow layouts.
- **The species collection** (`Libnucnet__Nuc.c`). Species keyed by generated names such as "he4", "nn" or "uue". Their indices stay dense through add, remove and sort. The model also covers the species ordering, the largest-nucleon-number query and the partition-function table.
- **The reaction collection** (`Libnucnet__Reac.c`). Reactions built from reactants and products, their canonical string, duplicate-reactant factors, the weak, beta-plus and positron-capture predicates, the registry with its update counter, detection of duplicate and reverse reactions, the rate-function key registry, and rate tables.
- **The zone store** (`Libnucnet.c`). Zones keyed by label triples, with per-zone abundance and property maps. The model also covers the reaction validity and conservation check, the flow vector, summed abundances, the time-step rule, and the Q value and reverse rate.
- **Equilibrium bookkeeping** (`Libnuceq.c`). The Ye constraint, the cluster registry and its constraints, the base log-abundance formula, the zero-constraint rule, root bracketing and the ordered species iteration.
- **The NucNet Tools helpers**:
  - species, zone and reaction comparators, reaction-type predicates, the XPath builders for lists of species and of reactions, grids and abundance normalisation (`nnt/auxiliary.cpp`);
  - reaction flows and flow vectors (`user/flow_utilities.cpp`);
  - the multi-zone time step, mass checks and the packing and unpacking of the full state vector (`user/multi_zone_utilities.cpp`);
  - the Newton iteration, non-negativity repair, convergence check and step control (`user/evolve.cpp`).

Each source file becomes one module:

| module | file | source |
|---|---|---|
| Common | common.dfy | shared helpers: Option, Result, strcmp order, min and max, counting occurrences |
| Vectors | vectors.dfy | sums and dot products of real vectors |
| WnMatrix | wn_matrix.dfy | WnMatrix.c: the element hash and its operations |
| WnMatrixLayouts | wn_matrix_layouts.dfy | WnMatrix.c: sorted export, COO, CSR, arrow |
| Nuc | nuc.dfy | Libnucnet__Nuc.c |
| Reac | reac.dfy | Libnucnet__Reac.c |
| ReacDuplicates | reac_duplicates.dfy | Libnucnet__Reac.c: duplicate and reverse detection |
| Libnucnet | net.dfy | Libnucnet.c: zones, labels, abundances, properties |
| NetReactions | net_reactions.dfy | Libnucnet.c: validity, conservation, Q value, reverse rate |
| NetZone | net_zone.dfy | Libnucnet.c: flow vector, summed abundances, time step |
| Transfers | transfers.dfy | the conservation walkers' give-and-take balance |
| Nuceq | nuceq.dfy | Libnuceq.c |
| Aux | aux.dfy | nnt/auxiliary.cpp |
| FlowUtilities | flow.dfy | user/flow_utilities.cpp |
| MultiZone | multi_zone.dfy | user/multi_zone_utilities.cpp |
| Evolve | evolve.dfy | user/evolve.cpp |

The modelling choices are these:

- C doubles are reals.
- Hash tables are maps. XML lists are sequences. Hash walks are loops over the key set.
- An object that the source updates in place is a class whose methods carry `modifies` clauses. Examples are the matrix, the species and reaction collections, the zone, the equilibrium object and the evolving zone.
- A fatal `*__ERROR` or `exit` takes one of two forms. Where the source aborts on bad arguments (a NULL pointer, an index out of range, a missing species, zone or reaction), the check is a precondition, so a caller that meets it never reaches the abort. Where the abort depends on data the operation itself inspects, the model returns a `Failure` that carries the source's message. That covers an unknown flow, vector or element type, an invalid grid spacing, zones of mixed mass, a reaction that breaks a conservation law or names a nuclide outside the network, abundances whose Σ A·Y is not positive and evolve's convergence failure. These operations are FlowUtilities.ComputeTotalFlow, MultiZone.MultiMassCalculationCheck, MultiZone.CreateFullVector, MultiZone.UpdateFromFullVector, Aux.GetVector, Aux.ReactionElementCount, Aux.NormalizeZoneAbundances, NetReactions.IsValidReaction, NetReactions.ComputeReactionQValue and Evolve.EvolvingZone.EvolveZoneStep. Two data-dependent aborts stay preconditions, because the caller can rule them out from data it already holds: the "Reactant and product strings the same" abort of the duplicate-reaction key (Libnucnet__Reac.c:2816) is the precondition `KeyDefined` of ReacDuplicates.DuplicateKey, ReacDuplicates.ReactionKey and ReacDuplicates.GetDuplicateReactions, and the "Cluster must not include neutron or proton" abort (Libnuceq.c:721) is the precondition of Nuceq.EvaluateMembers and Nuceq.Equil.ClusterFunction that no member is n or h1.
- An error code the caller can see is a `Result` or an `Option`.
- Transcendental functions and external solvers (exp, sqrt, pow, atof, the matrix solve) are function-valued parameters.

## Model

| member | source | states |
|---|---|---|
| WnMatrix.Assigned | vendor/wn_matrix/0.18/src/WnMatrix.c:99-197 | the value at p grows by v; a zero value leaves the hash unchanged |
| WnMatrix.Updated | vendor/wn_matrix/0.18/src/WnMatrix.c:203-269 | a non-zero v becomes the value at p; a zero v leaves the hash unchanged (an existing element stays); no other key or value changes |
| WnMatrix.Scaled | vendor/wn_matrix/0.18/src/WnMatrix.c:916-950 | scaling keeps exactly the stored positions |
| WnMatrix.AssignedElsewhere | vendor/wn_matrix/0.18/src/WnMatrix.c:99-197 | assignment at p changes neither the value nor the presence of any other position |
| WnMatrix.AssignedValues | vendor/wn_matrix/0.18/src/WnMatrix.c:99-197 | after assignElement every value is the old one plus v at p only |
| WnMatrix.ScaledValues | vendor/wn_matrix/0.18/src/WnMatrix.c:916-950 | after scaleMatrix every value, stored or not, is d times the old one |
| WnMatrix.DiagonalAddedValues | vendor/wn_matrix/0.18/src/WnMatrix.c:900-910 | addValueToDiagonals adds v exactly on the first n diagonal positions |
| WnMatrix.DiagonalAddedInside | vendor/wn_matrix/0.18/src/WnMatrix.c:900-910 | on a matrix with no more rows than columns the diagonal additions stay inside the matrix |
| WnMatrix.DiagonalAddedNone | vendor/wn_matrix/0.18/src/WnMatrix.c:900-910 | a matrix with no rows gets no diagonal additions |
| WnMatrix.BlockAddedValues | vendor/wn_matrix/0.18/src/WnMatrix.c:700-768 | insertMatrix adds the block's value inside its window and leaves every value and key outside it as it was |
| WnMatrix.BlockAddedInside | vendor/wn_matrix/0.18/src/WnMatrix.c:700-739 | a block that fits (r0 + nr - 1 <= rows, c0 + nc - 1 <= cols) adds nothing outside the matrix |
| WnMatrix.NonZeroGet | vendor/wn_matrix/0.18/src/WnMatrix.c:1258-1306 | the rebuilt hash holds the old value inside the grid and 0 outside it |
| WnMatrix.WindowGet | vendor/wn_matrix/0.18/src/WnMatrix.c:774-864 | extractMatrix holds at q the value at the shifted position q + (r0 - 1, c0 - 1), and nothing outside the window |
| WnMatrix.TransposedGet | vendor/wn_matrix/0.18/src/WnMatrix.c:1258-1306 | the transpose holds at (c, r) the value at (r, c), inside the swapped dimensions |
| WnMatrix.RowRemovedGet | vendor/wn_matrix/0.18/src/WnMatrix.c:3562-3669 | after removeRow(k) the value at q is the one at q's source row (q, or the row below when q's row is at or after k) |
| WnMatrix.ColumnRemovedGet | vendor/wn_matrix/0.18/src/WnMatrix.c:3675-3781 | the same for removeColumn |
| WnMatrix.RowInsertedGet | vendor/wn_matrix/0.18/src/WnMatrix.c:3787-3923 | after insertRow(k, v) row k holds v and every other row holds the old row shifted past k |
| WnMatrix.ColumnInsertedGet | vendor/wn_matrix/0.18/src/WnMatrix.c:3929-4065 | the same for insertColumn |
| WnMatrix.NonZeroNoZeros | vendor/wn_matrix/0.18/src/WnMatrix.c:1286-1306 | a rebuilt hash stores no zeros |
| WnMatrix.RowRemovedNoZeros | vendor/wn_matrix/0.18/src/WnMatrix.c:3631-3669 | removeRow's rebuilt hash stores no zeros |
| WnMatrix.ColumnRemovedNoZeros | vendor/wn_matrix/0.18/src/WnMatrix.c:3743-3781 | removeColumn's rebuilt hash stores no zeros |
| WnMatrix.ExtractInsertedBlock | vendor/wn_matrix/0.18/src/WnMatrix.c:700-864 | inserting a block into an empty matrix and extracting the same window gives back the block's non-zero elements |
| WnMatrix.TransposeTwice | vendor/wn_matrix/0.18/src/WnMatrix.c:1258-1306 | transposing twice gives back the non-zero elements |
| WnMatrix.RowInsertedKept | vendor/wn_matrix/0.18/src/WnMatrix.c:3787-3923 | every old element is found at its shifted row after insertRow |
| WnMatrix.RemoveInsertedRow | vendor/wn_matrix/0.18/src/WnMatrix.c:3562-3923 | removing the row just inserted at k gives back the non-zero elements |
| WnMatrix.RemoveInsertedColumn | vendor/wn_matrix/0.18/src/WnMatrix.c:3675-4065 | removing the column just inserted at k gives back the non-zero elements |
| WnMatrix.RowInsertedValues | vendor/wn_matrix/0.18/src/WnMatrix.c:3787-3923 | the inserted row holds v and every other row is an old row moved past k |
| WnMatrix.RowRemovedValues | vendor/wn_matrix/0.18/src/WnMatrix.c:3562-3669 | every element outside the removed row is found at its target after removeRow |
| WnMatrix.ScanScaling | vendor/wn_matrix/0.18/src/WnMatrix.c:935-950 | the scaling walk over the hash yields the scaled hash |
| WnMatrix.LoopAddingToDiagonal | vendor/wn_matrix/0.18/src/WnMatrix.c:900-910 | the diagonal loop yields v added at (i, i) for i = 1..n |
| WnMatrix.ScanAddingBlock | vendor/wn_matrix/0.18/src/WnMatrix.c:745-768 | the walk over the block adds every block element at its shifted position |
| WnMatrix.ScanExtracting | vendor/wn_matrix/0.18/src/WnMatrix.c:829-864 | the walk keeps exactly the non-zero elements of the window, re-indexed from (1, 1) |
| WnMatrix.ScanTransposing | vendor/wn_matrix/0.18/src/WnMatrix.c:1286-1306 | the walk yields the transposed hash inside the swapped dimensions |
| WnMatrix.ScanRemovingRow | vendor/wn_matrix/0.18/src/WnMatrix.c:3631-3669 | the walk yields the hash without row k, later rows moved up |
| WnMatrix.ScanRemovingColumn | vendor/wn_matrix/0.18/src/WnMatrix.c:3743-3781 | the walk yields the hash without column k, later columns moved left |
| WnMatrix.ScanShiftingRows | vendor/wn_matrix/0.18/src/WnMatrix.c:3888-3923 | the walk moves every element at or after row k down one row |
| WnMatrix.LoopStoringRow | vendor/wn_matrix/0.18/src/WnMatrix.c:3787-3882 | storing v's non-zero entries in row k completes insertRow's hash |
| WnMatrix.ScanShiftingColumns | vendor/wn_matrix/0.18/src/WnMatrix.c:4029-4065 | the walk moves every element at or after column k right one column |
| WnMatrix.LoopStoringColumn | vendor/wn_matrix/0.18/src/WnMatrix.c:3929-4023 | storing v's non-zero entries in column k completes insertColumn's hash |
| WnMatrix.Matrix.constructor | vendor/wn_matrix/0.18/src/WnMatrix.c:46-93 | a new matrix has the given dimensions and no elements |
| WnMatrix.Matrix.GetElement | vendor/wn_matrix/0.18/src/WnMatrix.c:299-348 | the stored value, or 0 when nothing is stored |
| WnMatrix.Matrix.NumberOfElements | vendor/wn_matrix/0.18/src/WnMatrix.c:418-422 | the number of stored elements |
| WnMatrix.Matrix.AssignElement | vendor/wn_matrix/0.18/src/WnMatrix.c:99-197 | the hash becomes Assigned (additive, zeros ignored); dimensions kept |
| WnMatrix.Matrix.UpdateElement | vendor/wn_matrix/0.18/src/WnMatrix.c:203-269 | the hash becomes Updated (replacing, zeros ignored); status 0 |
| WnMatrix.Matrix.RemoveElement | vendor/wn_matrix/0.18/src/WnMatrix.c:275-293 | the element at (r, c) is gone; status 0 if it was stored, -1 otherwise |
| WnMatrix.Matrix.Clear | vendor/wn_matrix/0.18/src/WnMatrix.c:386-392 | no element remains; dimensions kept |
| WnMatrix.Matrix.Scale | vendor/wn_matrix/0.18/src/WnMatrix.c:916-929 | every stored value multiplied by d |
| WnMatrix.Matrix.AddValueToDiagonals | vendor/wn_matrix/0.18/src/WnMatrix.c:900-910 | v added at (i, i) for every row i |
| WnMatrix.Matrix.GetDiagonalElements | vendor/wn_matrix/0.18/src/WnMatrix.c:870-894 | one entry per row, the value at (i, i) |
| WnMatrix.Matrix.InsertMatrix | vendor/wn_matrix/0.18/src/WnMatrix.c:700-739 | requires the block to fit; the hash becomes BlockAdded |
| WnMatrix.Matrix.ExtractMatrix | vendor/wn_matrix/0.18/src/WnMatrix.c:774-823 | a new nr x nc matrix holding the window's non-zero elements |
| WnMatrix.Matrix.GetTranspose | vendor/wn_matrix/0.18/src/WnMatrix.c:1258-1280 | a new cols x rows matrix holding the transposed non-zero elements |
| WnMatrix.Matrix.GetCopy | vendor/wn_matrix/0.18/src/WnMatrix.c:1312-1343 | a new matrix with the same dimensions and the same hash, stored zeros included |
| WnMatrix.Matrix.RemoveRow | vendor/wn_matrix/0.18/src/WnMatrix.c:3562-3625 | one row fewer; the hash becomes RowRemoved |
| WnMatrix.Matrix.RemoveColumn | vendor/wn_matrix/0.18/src/WnMatrix.c:3675-3737 | one column fewer; the hash becomes ColumnRemoved |
| WnMatrix.Matrix.InsertRow | vendor/wn_matrix/0.18/src/WnMatrix.c:3787-3882 | one row more; the hash becomes RowInserted |
| WnMatrix.Matrix.InsertColumn | vendor/wn_matrix/0.18/src/WnMatrix.c:3929-4023 | one column more; the hash becomes ColumnInserted |
| WnMatrixLayouts.DataCompare | vendor/wn_matrix/0.18/src/WnMatrix.c:1411-1430 | -1 exactly when x precedes y in row-major order, otherwise 1; never 0 |
| WnMatrixLayouts.DataCompareAntisymmetric | vendor/wn_matrix/0.18/src/WnMatrix.c:1411-1430 | antisymmetric on distinct positions; 1 both ways on equal ones |
| WnMatrixLayouts.InsertSorted | vendor/wn_matrix/0.18/src/WnMatrix.c:1150-1199 | placing an element into the listing keeps every element and adds one |
| WnMatrixLayouts.InsertSortedSorted | vendor/wn_matrix/0.18/src/WnMatrix.c:1150-1199 | inserting a new position into a sorted listing keeps it sorted |
| WnMatrixLayouts.SortedPositionCount | vendor/wn_matrix/0.18/src/WnMatrix.c:1150-1199 | a sorted listing holds each position once |
| WnMatrixLayouts.ListingCount | vendor/wn_matrix/0.18/src/WnMatrix.c:1150-1199 | a sorted listing has one element per selected key |
| WnMatrixLayouts.GetSortedElements | vendor/wn_matrix/0.18/src/WnMatrix.c:1150-1199 | the elements that pass the row and column filters, each once with its value, in strict row-major order |
| WnMatrixLayouts.GetRow | vendor/wn_matrix/0.18/src/WnMatrix.c:1022-1080 | the stored elements of row k with their values, by increasing column, none missing |
| WnMatrixLayouts.GetColumn | vendor/wn_matrix/0.18/src/WnMatrix.c:1086-1144 | the stored elements of column k with their values, by increasing row, none missing |
| WnMatrixLayouts.CopyToCoo | vendor/wn_matrix/0.18/src/WnMatrix.c:1377-1405 | three parallel arrays holding the listing's rows, columns and values |
| WnMatrixLayouts.GetCoo | vendor/wn_matrix/0.18/src/WnMatrix.c:1377-1405 | every stored element exactly once, with its value, in row-major order |
| WnMatrixLayouts.CountBelowAt | vendor/wn_matrix/0.18/src/WnMatrix.c:1436-1488 | in a sorted listing the elements before index i lie in the rows before r |
| WnMatrixLayouts.CsrRowSlice | vendor/wn_matrix/0.18/src/WnMatrix.c:1436-1488 | the elements of row r occupy the index range between the pointers of rows r and r + 1 |
| WnMatrixLayouts.FirstAtOrAfter | vendor/wn_matrix/0.18/src/WnMatrix.c:1436-1488 | the index of the first element at or after row r |
| WnMatrixLayouts.CsrRowPointersAsWritten | vendor/wn_matrix/0.18/src/WnMatrix.c:1436-1488 | the row pointer as the loops leave it: rows + 1 entries, unassigned between the last non-empty row and the end |
| WnMatrixLayouts.CsrPointerAsWrittenAgrees | vendor/wn_matrix/0.18/src/WnMatrix.c:1436-1488 | every entry the loops do assign holds the CSR value |
| WnMatrixLayouts.CsrTrailingRowUnassigned | vendor/wn_matrix/0.18/src/WnMatrix.c:1436-1488 | a matrix whose last row is empty gets an unassigned pointer where CSR needs the element count |
| WnMatrixLayouts.CsrRowPointers | vendor/wn_matrix/0.18/src/WnMatrix.c:1436-1488 | rows + 1 entries; entry j counts the elements in rows 1..j |
| WnMatrixLayouts.GetCsr | vendor/wn_matrix/0.18/src/WnMatrix.c:1436-1488 | requires a non-empty matrix; the pointer starts at 0, never decreases and ends at the element count; each row's range holds exactly that row's elements by increasing column |
| WnMatrixLayouts.CsrFromSorted | vendor/wn_matrix/0.18/src/WnMatrix.c:1436-1488 | the layout built from the sorted listing represents the hash |
| WnMatrixLayouts.ArrowAssigned | vendor/wn_matrix/0.18/src/WnMatrix.c:3141-3187 | storing an element keeps the parts' shapes |
| WnMatrixLayouts.ArrowAssignedAt | vendor/wn_matrix/0.18/src/WnMatrix.c:3141-3187 | storing v for p changes what the arrow holds at p and nowhere else |
| WnMatrixLayouts.ScanArrowBand | vendor/wn_matrix/0.18/src/WnMatrix.c:3104-3135 | the band is the largest distance from the diagonal among the elements outside the wings |
| WnMatrixLayouts.ScanArrowAssign | vendor/wn_matrix/0.18/src/WnMatrix.c:3141-3187 | the arrow holds the matrix's value at every position |
| WnMatrixLayouts.GetArrow | vendor/wn_matrix/0.18/src/WnMatrix.c:3239-3375 | requires a square matrix and a wing below the row count; the bandwidth is 2·band + 1, the band is the largest distance from the diagonal, and the arrow holds every value of the matrix |
| WnMatrixLayouts.ArrowRoundTrip | vendor/wn_matrix/0.18/src/WnMatrix.c:3467-3529 | converting the arrow of a matrix back gives the matrix's non-zero elements |
| WnMatrixLayouts.LoopArrowBand | vendor/wn_matrix/0.18/src/WnMatrix.c:3467-3529 | the band loop stores exactly the banded block's values |
| WnMatrixLayouts.LoopArrowWing | vendor/wn_matrix/0.18/src/WnMatrix.c:3467-3529 | a wing loop stores exactly that wing's values |
| WnMatrixLayouts.LoopArrowToElements | vendor/wn_matrix/0.18/src/WnMatrix.c:3467-3529 | the loops together yield the arrow's non-zero values |
| WnMatrixLayouts.ArrowGetMatrix | vendor/wn_matrix/0.18/src/WnMatrix.c:3467-3529 | a new rows x rows matrix holding the arrow's non-zero values |
| Nuc.UnassignedName | vendor/libnucnet/0.28/src/Libnucnet__Nuc.c:961-1007 | every letter of a placeholder name is one of n, u, b, t, q, p, h, s, o, e |
| Nuc.LetterDigit | vendor/libnucnet/0.28/src/Libnucnet__Nuc.c:961-1007 | the digit a placeholder letter stands for, which the letter table maps back to that letter |
| Nuc.UnassignedRoundTrip | vendor/libnucnet/0.28/src/Libnucnet__Nuc.c:961-1007 | reading a placeholder name gives Z back, so distinct Z get distinct names |
| Nuc.LetterDigitInverse | vendor/libnucnet/0.28/src/Libnucnet__Nuc.c:961-1007 | each digit's letter reads back as that digit |
| Nuc.CreateUnassignedElementName | vendor/libnucnet/0.28/src/Libnucnet__Nuc.c:961-1007 | the reversing loop yields the digit letters of Z, most significant first |
| Nuc.DigitLettersBackwards | vendor/libnucnet/0.28/src/Libnucnet__Nuc.c:984-993 | the letters appended for z, read backwards, are z's digit letters most significant first |
| Nuc.CopyReversed | vendor/libnucnet/0.28/src/Libnucnet__Nuc.c:995-1001 | copying from the last letter to the first yields the string reversed |
| Nuc.UnassignedNameOf119 | vendor/libnucnet/0.28/src/Libnucnet__Nuc.c:961-1007 | Z = 119 is named "uue" |
| Nuc.SpeciesNameDeterminesMassNumber | vendor/libnucnet/0.28/src/Libnucnet__Nuc.c:844-910 | within one element, equal generated names mean equal mass numbers |
| Nuc.SpeciesName | vendor/libnucnet/0.28/src/Libnucnet__Nuc.c:653-724 | the key is the base name, with the state appended only when the state flag is not the single-state value |
| Nuc.Zip | vendor/libnucnet/0.28/src/Libnucnet__Nuc.c:2341-2415 | the (T9, log10 partf) pairs of two equally long arrays |
| Nuc.UpdatePartitionFunctionData | vendor/libnucnet/0.28/src/Libnucnet__Nuc.c:2341-2415 | no arrays leave the species as it is; otherwise the table holds the given pairs, each pair kept together, sorted by T9; nothing else changes |
| Nuc.ComputePartitionFunction | vendor/libnucnet/0.28/src/Libnucnet__Nuc.c:1254-1330 | without a table the partition function is 2·spin + 1 |
| Nuc.PartitionFunctionFlatOutside | vendor/libnucnet/0.28/src/Libnucnet__Nuc.c:1254-1330 | below the first tabulated T9 the value is the one at the first T9; above the last, the one at the last |
| Nuc.DefaultCompare | vendor/libnucnet/0.28/src/Libnucnet__Nuc.c:1697-1725 | -1 or 1 exactly as the species come first or second by Z, then A, then name; 0 exactly for the same Z, A and name |
| Nuc.SpeciesLessStrictTotal | vendor/libnucnet/0.28/src/Libnucnet__Nuc.c:1697-1725 | the default order is irreflexive, asymmetric and transitive, and total on distinct names |
| Nuc.IndexCompare | vendor/libnucnet/0.28/src/Libnucnet__Nuc.c:1680-1691 | -1 exactly for a smaller index, 1 otherwise; never 0 |
| Nuc.PrecedesStrict | vendor/libnucnet/0.28/src/Libnucnet__Nuc.c:2682-2875 | the index order, the default compare and any irreflexive, transitive user compare are strict orders |
| Nuc.InsertName | vendor/libnucnet/0.28/src/Libnucnet__Nuc.c:2682-2850 | inserting a name into the listing keeps every name and adds one |
| Nuc.InsertNameOrdered | vendor/libnucnet/0.28/src/Libnucnet__Nuc.c:2682-2850 | inserting a new name keeps the listing strictly ordered |
| Nuc.ListedDistinct | vendor/libnucnet/0.28/src/Libnucnet__Nuc.c:2682-2850 | a strictly ordered listing repeats no name |
| Nuc.ListSpecies | vendor/libnucnet/0.28/src/Libnucnet__Nuc.c:2682-2875 | every species once, strictly ordered by index or by the compare function |
| Nuc.Renumber | vendor/libnucnet/0.28/src/Libnucnet__Nuc.c:2769-2794 | the species listed at position i gets index i and nothing else changes |
| Nuc.ListingUnique | vendor/libnucnet/0.28/src/Libnucnet__Nuc.c:2769-2794 | two strictly ordered listings of the same names are equal, so the new indices are determined |
| Nuc.NucleonNumber | vendor/libnucnet/0.28/src/Libnucnet__Nuc.c:3278-3310 | Z for "z", A for "a", A - Z for "n", wrapping modulo 2^32 when Z > A |
| Nuc.Without | vendor/libnucnet/0.28/src/Libnucnet__Nuc.c:1535-1568 | the index order with the removed entry taken out |
| Nuc.RemovalOrdered | vendor/libnucnet/0.28/src/Libnucnet__Nuc.c:1535-1568 | after a removal, the old order without the removed name lists the rest by index |
| Nuc.RemovalMembers | vendor/libnucnet/0.28/src/Libnucnet__Nuc.c:1535-1568 | and it lists every remaining species |
| Nuc.IndexedComparable | vendor/libnucnet/0.28/src/Libnucnet__Nuc.c:1535-1568 | distinct species of a valid collection have distinct indices |
| Nuc.RemoveAndRenumber | vendor/libnucnet/0.28/src/Libnucnet__Nuc.c:1535-1568 | the rest keep their relative order and are renumbered 0..n-1, a species after the removed one moving down by one |
| Nuc.ListedRank | vendor/libnucnet/0.28/src/Libnucnet__Nuc.c:2769-2875 | in a strictly ordered listing of every species, position i holds the species that the order puts i species before |
| Nuc.SortAndRenumber | vendor/libnucnet/0.28/src/Libnucnet__Nuc.c:2769-2875 | the same species, renumbered 0..n-1 in the order of the compare function; each species' new index is the number of species that compare puts before it |
| Nuc.Nuc.constructor | vendor/libnucnet/0.28/src/Libnucnet__Nuc.c:44-73 | an empty collection with the update counter at 1 and the default compare function |
| Nuc.Nuc.SetSpeciesCompareFunction | vendor/libnucnet/0.28/src/Libnucnet__Nuc.c:1649-1659 | later sorts use the given compare function |
| Nuc.Nuc.ClearSpeciesCompareFunction | vendor/libnucnet/0.28/src/Libnucnet__Nuc.c:1664-1675 | later sorts use the default compare function again |
| Nuc.Nuc.IndicesDense | vendor/libnucnet/0.28/src/Libnucnet__Nuc.c:730-764 | in a valid collection every index is below the count, every index below the count is used, and no two species share one |
| Nuc.Nuc.NumberOfSpecies | vendor/libnucnet/0.28/src/Libnucnet__Nuc.c:1092-1101 | the number of species |
| Nuc.Nuc.GetSpeciesByName | vendor/libnucnet/0.28/src/Libnucnet__Nuc.c:1065-1086 | the species stored under the name, or none exactly when the name is absent |
| Nuc.Nuc.GetSpeciesByZA | vendor/libnucnet/0.28/src/Libnucnet__Nuc.c:1209-1248 | the species whose name is the generated name with the state appended; none for A = 0 or when that name is absent |
| Nuc.Nuc.AddSpecies | vendor/libnucnet/0.28/src/Libnucnet__Nuc.c:730-764 | 0 and no change when the name is taken; otherwise 1, the species stored with index equal to the old count, and the update counter advanced |
| Nuc.Nuc.RemoveSpecies | vendor/libnucnet/0.28/src/Libnucnet__Nuc.c:1535-1568 | 0 and no change for a missing or absent species; otherwise 1, the species gone, the rest renumbered densely in their old order, the update counter advanced, and the new index order is the old one with the removed name taken out |
| Nuc.Nuc.RemoveStates | vendor/libnucnet/0.28/src/Libnucnet__Nuc.c:812-826 | every species with the base name gone, the rest in their old relative order with dense indices, the update counter advanced once per removal |
| Nuc.Nuc.Displace | vendor/libnucnet/0.28/src/Libnucnet__Nuc.c:790-828 | the species under sp's name goes; failing that, for a species with a state, the one under its base name; failing that, every state of its base name; the rest keep their relative order with dense indices, one counter step per removal |
| Nuc.Nuc.UpdateSpecies | vendor/libnucnet/0.28/src/Libnucnet__Nuc.c:771-836 | 0 and no change exactly when sp itself is already stored; otherwise 1, the displaced species gone, the rest in their old relative order with dense indices, sp stored last with index count − 1, and the counter advanced once per removal plus once for the addition |
| Nuc.AddAfterDisplace | vendor/libnucnet/0.28/src/Libnucnet__Nuc.c:828-834 | adding sp after the displacement yields the state updateSpecies promises |
| Nuc.WithoutIsExcept | vendor/libnucnet/0.28/src/Libnucnet__Nuc.c:1535-1568 | in a repeat-free order, dropping the entry at k is dropping its name |
| Nuc.ExceptExcept | vendor/libnucnet/0.28/src/Libnucnet__Nuc.c:812-826 | removing two sets of names in turn is removing their union, so the walk's order does not matter |
| Nuc.Nuc.SortSpecies | vendor/libnucnet/0.28/src/Libnucnet__Nuc.c:2769-2794 | the same species with indices 0..n-1 in the order of the collection's compare function (each index is the species' rank under it); the update counter and the compare function unchanged |
| Nuc.Nuc.GetLargestNucleonNumber | vendor/libnucnet/0.28/src/Libnucnet__Nuc.c:3237-3310 | the maximum of Z, A or A - Z over the species, 0 for an empty collection; any other kind is fatal |
| Reac.ListedAt | vendor/libnucnet/0.28/src/Libnucnet__Reac.c:3093-3118 | every listed name is found by the chain of comparisons |
| Reac.Walk | vendor/libnucnet/0.28/src/Libnucnet__Reac.c:2466-2501 | walking no names leaves the string as it was; walking some always yields a string |
| Reac.Join | vendor/libnucnet/0.28/src/Libnucnet__Reac.c:2406-2501 | a single name joins to itself |
| Reac.NoArrowAfterName | vendor/libnucnet/0.28/src/Libnucnet__Reac.c:2466-2501 | after a plain name the string never ends with the arrow |
| Reac.WalkSnoc | vendor/libnucnet/0.28/src/Libnucnet__Reac.c:2466-2501 | one more name at the end is one more walker step |
| Reac.WalkJoined | vendor/libnucnet/0.28/src/Libnucnet__Reac.c:2466-2501 | after the first name the walker joins the rest with " + " |
| Reac.WalkJoinedNext | vendor/libnucnet/0.28/src/Libnucnet__Reac.c:2466-2501 | each further name is appended after " + " |
| Reac.JoinAppend | vendor/libnucnet/0.28/src/Libnucnet__Reac.c:2406-2501 | joining two lists one after the other puts " + " between them |
| Reac.WalkBoth | vendor/libnucnet/0.28/src/Libnucnet__Reac.c:2406-2460 | walking the nuclide list and then the other list from nothing joins both lists |
| Reac.WalkAfterArrow | vendor/libnucnet/0.28/src/Libnucnet__Reac.c:2406-2460 | after the arrow both product lists are joined as one |
| Reac.WalkFromArrow | vendor/libnucnet/0.28/src/Libnucnet__Reac.c:2466-2501 | right after the arrow the first name is appended bare |
| Reac.WalkAfterName | vendor/libnucnet/0.28/src/Libnucnet__Reac.c:2466-2501 | after a name every further name comes with " + " |
| Reac.BuiltIsReactionString | vendor/libnucnet/0.28/src/Libnucnet__Reac.c:2406-2501 | for plain names the built string is "a + b -> c + d": nuclide then other reactants, the arrow, nuclide then other products |
| Reac.UpdateString | vendor/libnucnet/0.28/src/Libnucnet__Reac.c:2406-2460 | the four walks build that string |
| Reac.WalkList | vendor/libnucnet/0.28/src/Libnucnet__Reac.c:2466-2501 | the walk over one list |
| Reac.Factorial | vendor/libnucnet/0.28/src/Libnucnet__Reac.c:1490-1604 | k! is at least 1 |
| Reac.DuplicateFactorPositive | vendor/libnucnet/0.28/src/Libnucnet__Reac.c:1490-1604 | a duplicate factor is never zero |
| Reac.FactorialProductAny | vendor/libnucnet/0.28/src/Libnucnet__Reac.c:1490-1604 | the product of factorials does not depend on which name is taken first |
| Reac.FactorialProductAdd | vendor/libnucnet/0.28/src/Libnucnet__Reac.c:1532-1542 | one more copy of a name multiplies the product by its new multiplicity |
| Reac.DuplicateFactorIsFactorialProduct | vendor/libnucnet/0.28/src/Libnucnet__Reac.c:1532-1542 | the duplicate factor is the product over names of the factorial of each multiplicity |
| Reac.DuplicateFactorOrderFree | vendor/libnucnet/0.28/src/Libnucnet__Reac.c:1532-1542 | the factor depends only on the multiplicities, not on the order of addition |
| Reac.DuplicateFactorRepeated | vendor/libnucnet/0.28/src/Libnucnet__Reac.c:1532-1542 | k identical nuclides give k! |
| Reac.DuplicateFactorDistinct | vendor/libnucnet/0.28/src/Libnucnet__Reac.c:1532-1542 | distinct nuclides leave the factor at 1 |
| Reac.CountNamed | vendor/libnucnet/0.28/src/Libnucnet__Reac.c:4173-4239 | at most two counts per element |
| Reac.CountNamedAbsent | vendor/libnucnet/0.28/src/Libnucnet__Reac.c:4173-4239 | a list holding neither name counts none |
| Reac.CountedLepton | vendor/libnucnet/0.28/src/Libnucnet__Reac.c:4117-4239 | a counted lepton name makes the list hold a lepton |
| Reac.HasLeptonAppend | vendor/libnucnet/0.28/src/Libnucnet__Reac.c:4053-4144 | nuclides followed by other elements hold a lepton exactly when the other elements do |
| Reac.RateFromTableFlatOutside | vendor/libnucnet/0.28/src/Libnucnet__Reac.c:2050-2079 | outside the table the rate is the first or the last tabulated rate |
| Reac.NonSmokerT9 | vendor/libnucnet/0.28/src/Libnucnet__Reac.c:1163-1207 | T9 clamped into [low, high]: unchanged inside, the nearer bound outside |
| Reac.AddedToSide | vendor/libnucnet/0.28/src/Libnucnet__Reac.c:1490-1604 | a nuclide joins the nuclide list and multiplies the factor by its new count; any other element joins the other list and leaves the factor unchanged; nothing is lost |
| Reac.AddToSide | vendor/libnucnet/0.28/src/Libnucnet__Reac.c:1490-1604 | the lists and the factor after one element joins a side, kept consistent |
| Reac.AddReactantTo | vendor/libnucnet/0.28/src/Libnucnet__Reac.c:1490-1544 | the reactant joins its list, the factor follows, and the string is rebuilt from the lists |
| Reac.AddProductTo | vendor/libnucnet/0.28/src/Libnucnet__Reac.c:1550-1604 | the product joins its list, the factor follows, and the string is rebuilt from the lists |
| Reac.Reaction.constructor | vendor/libnucnet/0.28/src/Libnucnet__Reac.c:564-583 | no elements, no string, factors 1, no rate data |
| Reac.Reaction.AddReactant | vendor/libnucnet/0.28/src/Libnucnet__Reac.c:1490-1544 | the reactant joins the nuclide or the other list; the string and the factor follow; the products and rate data are unchanged |
| Reac.Reaction.AddProduct | vendor/libnucnet/0.28/src/Libnucnet__Reac.c:1550-1604 | the same for a product |
| Reac.Reaction.GetSides | vendor/libnucnet/0.28/src/Libnucnet__Reac.c:2715-2843 | each side holds exactly its nuclide and other elements |
| Reac.Reaction.IsWeakAnywhere | vendor/libnucnet/0.28/src/Libnucnet__Reac.c:4053-4144 | a reaction is weak exactly when a lepton appears on either side |
| Reac.Reaction.ClassifiedWeak | vendor/libnucnet/0.28/src/Libnucnet__Reac.c:4150-4239 | beta-plus decays and positron captures are weak |
| Reac.Reaction.SetUserRateFunctionKey | vendor/libnucnet/0.28/src/Libnucnet__Reac.c:4774-4802 | a second key is fatal; the key is set and the rate data become an empty property table; nothing else changes |
| Reac.Reaction.UpdateUserRateFunctionProperty | vendor/libnucnet/0.28/src/Libnucnet__Reac.c:4808-4851 | 0 and no change without a user-defined rate function; otherwise 1 and the property stored under (name, tag1, tag2) |
| Reac.Reaction.UpdateSingleRate | vendor/libnucnet/0.28/src/Libnucnet__Reac.c:1213-1253 | the key becomes single_rate with the given rate |
| Reac.Reaction.UpdateRateTable | vendor/libnucnet/0.28/src/Libnucnet__Reac.c:1259-1353 | three equal, non-empty lengths required (a GSL vector has at least one element, and different lengths are a fatal error); the key becomes rate_table and the table holds the given (t9, rate, sef) rows, each kept whole, sorted by T9 |
| Reac.Reac.constructor | vendor/libnucnet/0.28/src/Libnucnet__Reac.c:44-97 | no reactions; the three built-in rate functions registered, the counter at 4 |
| Reac.Reac.RegisterRateFunction | vendor/libnucnet/0.28/src/Libnucnet__Reac.c:4683-4716 | the key is registered and the counter advances |
| Reac.Reac.GetReactionByString | vendor/libnucnet/0.28/src/Libnucnet__Reac.c:2309-2322 | the reaction stored under the string, none exactly when it is absent |
| Reac.Reac.NumberOfReactions | vendor/libnucnet/0.28/src/Libnucnet__Reac.c:1949-1954 | the number of stored reactions |
| Reac.Reac.AddReaction | vendor/libnucnet/0.28/src/Libnucnet__Reac.c:2585-2619 | 0 and no change when the string is taken; otherwise 1, the reaction stored, the count one higher and the counter advanced |
| Reac.Reac.UpdateReaction | vendor/libnucnet/0.28/src/Libnucnet__Reac.c:2625-2674 | 0 and no change when the same reaction is already stored; otherwise 1, the reaction stored and the counter advanced |
| Reac.Reac.RemoveReaction | vendor/libnucnet/0.28/src/Libnucnet__Reac.c:2130-2149 | 0 and no change when nothing is stored under the string; otherwise 1, the reaction gone and the counter advanced |
| ReacDuplicates.InsertName | vendor/libnucnet/0.28/src/Libnucnet__Reac.c:2863-2872 | an inserted name joins the list and nothing is lost |
| ReacDuplicates.InsertNameSorted | vendor/libnucnet/0.28/src/Libnucnet__Reac.c:2863-2872 | inserting into a list sorted by the element comparator keeps it sorted |
| ReacDuplicates.SortNames | vendor/libnucnet/0.28/src/Libnucnet__Reac.c:2715-2843 | the copied list holds the same names |
| ReacDuplicates.SortNamesSorted | vendor/libnucnet/0.28/src/Libnucnet__Reac.c:2715-2843 | and it is sorted |
| ReacDuplicates.MergeNames | vendor/libnucnet/0.28/src/Libnucnet__Reac.c:2715-2843 | merging keeps every name of both lists |
| ReacDuplicates.MergeNamesSorted | vendor/libnucnet/0.28/src/Libnucnet__Reac.c:2715-2843 | and keeps the result sorted |
| ReacDuplicates.SortedFirstLeast | vendor/libnucnet/0.28/src/Libnucnet__Reac.c:2715-2843 | the first name of a sorted list is the least |
| ReacDuplicates.SortedUnique | vendor/libnucnet/0.28/src/Libnucnet__Reac.c:2715-2843 | sorted lists with the same names are the same list |
| ReacDuplicates.MergedSide | vendor/libnucnet/0.28/src/Libnucnet__Reac.c:2715-2843 | the merged copies of a side's two lists are all of the side's names, sorted |
| ReacDuplicates.DuplicateKeyReverse | vendor/libnucnet/0.28/src/Libnucnet__Reac.c:2715-2843 | a reaction and its reverse have the same key |
| ReacDuplicates.SideStringOrderFree | vendor/libnucnet/0.28/src/Libnucnet__Reac.c:2715-2843 | a side's string depends only on which names it holds |
| ReacDuplicates.DuplicateKeyOrderFree | vendor/libnucnet/0.28/src/Libnucnet__Reac.c:2715-2843 | so does the key |
| ReacDuplicates.DuplicateKeyIgnoresNameBoundaries | vendor/libnucnet/0.28/src/Libnucnet__Reac.c:2715-2843 | with no separator, "a -> bc" and "ab -> c" share the key "abc" |
| ReacDuplicates.JoinNames | vendor/libnucnet/0.28/src/Libnucnet__Reac.c:2715-2843 | the popping loop runs the merged names together in their order |
| ReacDuplicates.SideStringOf | vendor/libnucnet/0.28/src/Libnucnet__Reac.c:2715-2843 | merging the separately sorted nuclide and other names gives the side string of the whole side: all its names sorted and run together |
| ReacDuplicates.ReactionKey | vendor/libnucnet/0.28/src/Libnucnet__Reac.c:2715-2843 | equal side strings are fatal; the key is the smaller side string followed by the larger |
| ReacDuplicates.MarkDuplicates | vendor/libnucnet/0.28/src/Libnucnet__Reac.c:2680-2843 | each reaction in the result has a parent outside the result with the same key; no two reactions outside the result share a key |
| ReacDuplicates.GetDuplicateReactions | vendor/libnucnet/0.28/src/Libnucnet__Reac.c:2680-2843 | the same, for the duplicate key of each reaction |
| Libnucnet.Stored | vendor/libnucnet/0.28/src/Libnucnet.c:2869-2966 | reading back gives the stored value, other species are unchanged, no zero is ever stored, and the entry exists exactly when the value is non-zero |
| Libnucnet.Zone.constructor | vendor/libnucnet/0.28/src/Libnucnet.c:563-635 | missing labels become "0"; the abundance, change and property tables start empty |
| Libnucnet.Zone.UpdateSpeciesAbundance | vendor/libnucnet/0.28/src/Libnucnet.c:2869-2915 | a zero removes the entry and any other value is stored; reading back gives the value |
| Libnucnet.Zone.UpdateSpeciesAbundanceChange | vendor/libnucnet/0.28/src/Libnucnet.c:2921-2966 | the same for abundance changes |
| Libnucnet.Zone.UpdateProperty | vendor/libnucnet/0.28/src/Libnucnet.c:4887-4928 | tag2 without tag1 is fatal; otherwise the value is stored under (name, tag1, tag2), replacing any earlier one, and 1 is returned |
| Libnucnet.Zone.GetProperty | vendor/libnucnet/0.28/src/Libnucnet.c:4961-4984 | the value under the exact key, none exactly when the key is absent |
| Libnucnet.Zone.RemoveProperty | vendor/libnucnet/0.28/src/Libnucnet.c:4934-4955 | 1 exactly when a property was stored under the key; afterwards there is none |
| Libnucnet.RelabelledAsWritten | vendor/libnucnet/0.28/src/Libnucnet.c:5139-5218 | relabelZone as written: on success the number of zones is unchanged |
| Libnucnet.RelabelAsWrittenLosesZone | vendor/libnucnet/0.28/src/Libnucnet.c:5139-5218 | with a missing label whose default is taken, the call reports failure, yet the zone has left the table and its labels have changed |
| Libnucnet.Relabelled | vendor/libnucnet/0.28/src/Libnucnet.c:5139-5218 | 0 and no change exactly when the new (defaulted) labels are taken; otherwise 1, the zone moved to its new labels, every other zone in place |
| Libnucnet.RelabelledAgreesWhenLabelled | vendor/libnucnet/0.28/src/Libnucnet.c:5139-5218 | with all three labels given the code as written behaves as intended |
| Libnucnet.Nucnet.constructor | vendor/libnucnet/0.28/src/Libnucnet.c:44-75 | no zones |
| Libnucnet.Nucnet.GetZoneByLabels | vendor/libnucnet/0.28/src/Libnucnet.c:3038-3059 | the zone stored under the three labels; none when a label is missing or the triple is absent |
| Libnucnet.Nucnet.NumberOfZones | vendor/libnucnet/0.28/src/Libnucnet.c:2836-2844 | the number of stored zones |
| Libnucnet.Nucnet.AddZone | vendor/libnucnet/0.28/src/Libnucnet.c:641-672 | 0 and no change when the labels are taken; otherwise 1 and the zone stored under its labels |
| Libnucnet.Nucnet.RemoveZone | vendor/libnucnet/0.28/src/Libnucnet.c:2850-2863 | the zone's labels are no longer stored |
| Libnucnet.Nucnet.RelabelZone | vendor/libnucnet/0.28/src/Libnucnet.c:5139-5218 | status, zones and labels as Relabelled states |
| NetReactions.TotalAppend | vendor/libnucnet/0.28/src/Libnucnet.c:1095-1479 | the walkers' totals add over concatenated lists |
| NetReactions.TotalRemove | vendor/libnucnet/0.28/src/Libnucnet.c:1095-1479 | removing one element takes its weight off the total |
| NetReactions.TotalOrderFree | vendor/libnucnet/0.28/src/Libnucnet.c:1095-1479 | the totals, and so the checks, do not depend on the order of the lists |
| NetReactions.ReverseBalanced | vendor/libnucnet/0.28/src/Libnucnet.c:1095-1479 | a reaction read backwards changes every quantity by the opposite amount, so it balances exactly when the reaction does |
| NetReactions.AddWeights | vendor/libnucnet/0.28/src/Libnucnet.c:1159-1183 | a walk adds the list's total weight to the running value |
| NetReactions.ComputeChange | vendor/libnucnet/0.28/src/Libnucnet.c:1095-1479 | baryon number, charge (Z and ±1 per charged lepton) and the three lepton numbers: products minus reactants |
| NetReactions.AllKnown | vendor/libnucnet/0.28/src/Libnucnet.c:3277-3303 | true exactly when every element of the list is a species of the network |
| NetReactions.IsValidReaction | vendor/libnucnet/0.28/src/Libnucnet.c:3187-3271 | false exactly when a nuclide is missing from the network; true exactly when all are present and every quantity balances; otherwise the error of the first failing check |
| NetReactions.QValueReversed | vendor/libnucnet/0.28/src/Libnucnet.c:2100-2207 | without positrons or electron neutrinos the reverse reaction has the opposite Q value |
| NetReactions.SubtractMassExcesses | vendor/libnucnet/0.28/src/Libnucnet.c:2183-2207 | a walk subtracts the list's summed mass excesses |
| NetReactions.ComputeReactionQValue | vendor/libnucnet/0.28/src/Libnucnet.c:2100-2177 | a reaction with a nuclide outside the network fails with "Invalid reaction", one that breaks a conservation law with isValidReaction's message; a valid one gets reactant mass excesses minus product mass excesses, minus 2·mₑ for beta-plus, plus 2·mₑ for positron capture |
| NetReactions.ReverseExponentReversed | vendor/libnucnet/0.28/src/Libnucnet.c:1939-2094 | the reverse reaction has the opposite exponent |
| NetReactions.SubtractNseFactors | vendor/libnucnet/0.28/src/Libnucnet.c:2066-2094 | a walk subtracts the list's summed NSE factors |
| NetReactions.ReverseRateOf | vendor/libnucnet/0.28/src/Libnucnet.c:1939-2060 | above the exponent cap 115.13 both rates are 0; below -300 the reverse rate is 0; in between the reverse rate is the forward rate times exp(exponent) times the product factor over the reactant factor |
| NetReactions.DividedBack | vendor/libnucnet/0.28/src/Libnucnet.c:1939-2060 | dividing by a non-zero factor and multiplying back gives the value |
| NetReactions.ComputeReverseRate | vendor/libnucnet/0.28/src/Libnucnet.c:1939-2060 | weak reactions and single-reactant reactions get reverse rate 0 and keep their forward rate; others as ReverseRateOf |
| NetZone.NetRates | vendor/libnucnet/0.28/src/Libnucnet.c:2589-2738 | one net rate per reaction: forward·ΠY(reactants)/dupR − reverse·ΠY(products)/dupP |
| NetZone.Flow | vendor/libnucnet/0.28/src/Libnucnet.c:2531-2738 | a vector with one entry per species |
| NetZone.FlowConserves | vendor/libnucnet/0.28/src/Libnucnet.c:2531-2738 | when every reaction carries the same weight (A, or Z) on both sides, the flow vector changes the weighted sum by nothing, whatever the rates |
| Transfers.DotTakeGiveBalanced | vendor/libnucnet/0.28/src/Libnucnet.c:2589-2738 | taking u at each reactant index and giving it at each product index keeps any weighted sum under which both sides weigh the same |
| NetZone.MultiplyAbundances | vendor/libnucnet/0.28/src/Libnucnet.c:2589-2738 | the running product is the rate over its factor times the abundances at the listed indices |
| NetZone.AddAt | vendor/libnucnet/0.28/src/Libnucnet.c:2589-2738 | x added at every listed index, repeats counted |
| NetZone.ComputeFlowVector | vendor/libnucnet/0.28/src/Libnucnet.c:2531-2583 | each reaction's net rate taken from every reactant index and added at every product index |
| NetZone.FlowLast | vendor/libnucnet/0.28/src/Libnucnet.c:2531-2738 | the last reaction's term is applied on top of the others |
| NetZone.ApplyTerm | vendor/libnucnet/0.28/src/Libnucnet.c:2589-2738 | one callback: the net rate from the abundances, taken from each reactant, added to each product |
| NetZone.Binned | vendor/libnucnet/0.28/src/Libnucnet.c:5695-5738 | one entry per bin |
| NetZone.BinnedTotal | vendor/libnucnet/0.28/src/Libnucnet.c:5642-5738 | the bins add up to the summed abundance |
| NetZone.BinAbundances | vendor/libnucnet/0.28/src/Libnucnet.c:5695-5738 | each species adds its abundance at its Z, N or A |
| NetZone.SetTotalRemove | vendor/libnucnet/0.28/src/Libnucnet.c:5642-5738 | the summed abundance of a set of species does not depend on which species is taken first |
| NetZone.TotalOfDistinct | vendor/libnucnet/0.28/src/Libnucnet.c:5642-5738 | summing along a scan that repeats no species gives the total over the set of species scanned |
| NetZone.WithNumberMembers | vendor/libnucnet/0.28/src/Libnucnet.c:5695-5738 | the species a bin collects are exactly the scanned species with that Z, N or A, each once |
| NetZone.BinnedEntry | vendor/libnucnet/0.28/src/Libnucnet.c:5695-5738 | bin k holds the summed abundance of the scanned species whose Z, N or A is k |
| NetZone.SummedBySpecies | vendor/libnucnet/0.28/src/Libnucnet.c:5642-5738 | over a hash scan that visits every species once, bin k is the total abundance of the network's species with Z, N or A equal to k, whatever the scan order |
| NetZone.GetSummedAbundances | vendor/libnucnet/0.28/src/Libnucnet.c:5642-5689 | one entry more than the largest Z, N or A; scanning every species of the network once, entry k is the total abundance of the species with that number; an unknown kind is fatal |
| NetZone.UpdateTimeStep | vendor/libnucnet/0.28/src/Libnucnet.c:2744-2830 | scanning every species of the zone's network once, the new step is the smallest of (1 + regt)·dt and dt·regy·\|y/(dy + 1e-300)\| over the species with y above the floor and dy ≠ 0; the minimum is attained |
| Nuceq.BaseLogAbundanceByNucleons | vendor/libnuceq/0.7/src/Libnuceq.c:581-602 | the base log abundance is Z·μp + N·μn + NSE factor + correction |
| Nuceq.CappedAbundanceSaturates | vendor/libnuceq/0.7/src/Libnuceq.c:557-575 | a log abundance at or above 690 gives exp(690) |
| Nuceq.CappedAbundanceMonotone | vendor/libnuceq/0.7/src/Libnuceq.c:557-575 | with a non-decreasing exp the capped abundance is non-decreasing |
| Nuceq.FillAbundances | vendor/libnuceq/0.7/src/Libnuceq.c:557-575 | every species gets exp(min(690, base log abundance)), nothing else changes |
| Nuceq.ZeroedMembers | vendor/libnuceq/0.7/src/Libnuceq.c:640-652 | members get abundance 0, every other species is unchanged |
| Nuceq.LastHolder | vendor/libnuceq/0.7/src/Libnuceq.c:545-549 | the last cluster of the scan holding the species holds it; when there is none, no scanned cluster holds it |
| Nuceq.AfterClustersAt | vendor/libnuceq/0.7/src/Libnuceq.c:533-652 | after the cluster scan a species held by no cluster is unchanged; otherwise the last cluster holding it sets its abundance (0 for a zero constraint, the member abundance at that cluster's root otherwise) and nothing else of it |
| Nuceq.ComputedEverywhere | vendor/libnuceq/0.7/src/Libnuceq.c:533-652 | after both scans every species has its computed abundance and keeps its factors |
| Nuceq.HandleCluster | vendor/libnuceq/0.7/src/Libnuceq.c:608-652 | for a zero constraint μ becomes −∞ and the members' abundances 0; otherwise μ becomes the solver's root and the members get their abundances at that root |
| Nuceq.ScanClusters | vendor/libnuceq/0.7/src/Libnuceq.c:533-652 | every cluster, scanned in hash order, gets its μ; the species are the result of handling the clusters in that order |
| Nuceq.ClusterSumMonotone | vendor/libnuceq/0.7/src/Libnuceq.c:701-750 | without a constraint hook, and with no prefactor hook or one non-decreasing in μ, the cluster function is non-decreasing in μ |
| Nuceq.ClusterSumIgnoresMu | vendor/libnuceq/0.7/src/Libnuceq.c:701-750 | with a prefactor hook that does not read the μ just set, the cluster function is the same at every μ |
| Nuceq.EvaluateMembers | vendor/libnuceq/0.7/src/Libnuceq.c:701-750 | the residual is −constraint plus each member's term; each member stores exp(min(690, base + hook(member, x))), or base + x without a hook |
| Nuceq.BracketingFound | vendor/libnuceq/0.7/src/Libnuceq.c:1368-1405 | a reported bracket has a sign change between its endpoints |
| Nuceq.BracketingImmediate | vendor/libnuceq/0.7/src/Libnuceq.c:1368-1405 | a sign change at the given endpoints is reported at once with the endpoints untouched |
| Nuceq.BracketRoot | vendor/libnuceq/0.7/src/Libnuceq.c:1368-1405 | status 1 exactly when a sign change was found, with f(y1)·f(y2) < 0; 0 after 1000 expansions |
| Nuceq.VisitInOrder | vendor/libnuceq/0.7/src/Libnuceq.c:1102-1123 | the species are visited by index, each once, until the callback refuses one |
| Nuceq.CopiedClustersIdempotent | vendor/libnuceq/0.7/src/Libnuceq.c:2190-2214 | copying keeps each cluster's members, and copying a copy changes nothing |
| Nuceq.Equil.constructor | vendor/libnuceq/0.7/src/Libnuceq.c:46-113 | every species gets zero factors and abundance; no Ye, no clusters |
| Nuceq.Equil.SetYe | vendor/libnuceq/0.7/src/Libnuceq.c:1411-1430 | Ye is set when 0 ≤ Ye ≤ 1 |
| Nuceq.Equil.ClearYe | vendor/libnuceq/0.7/src/Libnuceq.c:1456-1467 | the Ye constraint is removed |
| Nuceq.Equil.NewCluster | vendor/libnuceq/0.7/src/Libnuceq.c:1473-1518 | a cluster of the selected species under a fresh XPath with constraint 0 |
| Nuceq.Equil.UpdateConstraint | vendor/libnuceq/0.7/src/Libnuceq.c:1524-1533 | only that cluster's constraint changes |
| Nuceq.Equil.GetCluster | vendor/libnuceq/0.7/src/Libnuceq.c:1810-1826 | the cluster under the XPath exactly when there is one |
| Nuceq.Equil.RemoveCluster | vendor/libnuceq/0.7/src/Libnuceq.c:1539-1555 | the cluster is gone; status 1 iff it was there, 0 iff it was absent |
| Nuceq.Equil.CopyClusters | vendor/libnuceq/0.7/src/Libnuceq.c:2190-2214 | the clusters are cleared, then the source's copied with constraint 0; copying onto itself leaves none |
| Nuceq.Equil.ComputeAbundances | vendor/libnuceq/0.7/src/Libnuceq.c:533-652 | a species in no cluster gets exp(min(690, base log abundance)); otherwise the last cluster in the scan holding it decides: 0 for a zero constraint (μ = −∞), else its abundance at the root the solver returned for that cluster, which becomes the cluster's μ |
| Nuceq.Equil.ClusterFunction | vendor/libnuceq/0.7/src/Libnuceq.c:658-750 | μ of the cluster becomes x; the result is −constraint plus the members' terms, each member's abundance taken with the prefactor hook at μ = x; only the members' abundances change |
| Nuceq.Equil.IterateSpecies | vendor/libnuceq/0.7/src/Libnuceq.c:1102-1123 | species visited in index order, each once, stopping at the first refused |
| Nuceq.Equil.IterateClusterSpecies | vendor/libnuceq/0.7/src/Libnuceq.c:1236-1257 | the same over the cluster's members |
| Aux.CompareByZThenAAntisymmetric | nnt/auxiliary.cpp:289-332 | the comparison is 0 exactly for equal Z, A and name, takes values −1, 0, 1, and flips sign when the arguments are swapped |
| Aux.CompareByZThenATransitive | nnt/auxiliary.cpp:289-332 | "before" is transitive |
| Aux.SortFunctionAsWrittenNotReflexive | nnt/auxiliary.cpp:349-407 | as written, he4 compared with itself gives 1 |
| Aux.SortFunctionAgrees | nnt/auxiliary.cpp:349-407 | the corrected comparison agrees with the code for any two different species |
| Aux.SortFunctionOrder | nnt/auxiliary.cpp:349-407 | ordinary species by Z, A and name, then n, then h1, then he4 last; 0 only for the same species; antisymmetric |
| Aux.CompareByFirstLabelProperties | nnt/auxiliary.cpp:258-273 | never 0; −1 exactly when the first label reads as the smaller number; antisymmetric for different values |
| Aux.ZoneSortFunctionProperties | nnt/auxiliary.cpp:1443-1460 | 0 exactly when the first labels read as the same integer, −1 exactly when smaller, antisymmetric |
| Aux.AntiNeutrinoHoldsNeutrino | nnt/auxiliary.cpp:673-761 | a reaction string naming anti-neutrino_e also contains neutrino_e, which is why the capture tests check for the antineutrino |
| Aux.LeptonReactionTypes | nnt/auxiliary.cpp:673-761 | beta-minus or electron capture exactly when an electron and a neutrino_e appear, never both; likewise for positron capture and beta-plus |
| Aux.NuclearQValueShift | nnt/auxiliary.cpp:644-667 | without a neutrino the Q value is unchanged; otherwise it shifts by ±mₑc²: +mₑc² for beta-minus, −mₑc² for electron capture without a positron |
| Aux.CreateNucXPath | nnt/auxiliary.cpp:767-808 | "[", each species' z/a condition joined by " or ", "]" |
| Aux.ZATermInjective | nnt/auxiliary.cpp:767-808 | different (Z, A) pairs give different conditions |
| Aux.CompareReactionsByStringOrder | nnt/auxiliary.cpp:132-144 | 0 exactly for the same reaction string, swapping the reactions flips the sign, and "before" is transitive: reactions sort alphabetically by string |
| Aux.BuildReactantClauses | nnt/auxiliary.cpp:841-856 | "reactant = 'r' and " for each reactant in turn |
| Aux.BuildProductClauses | nnt/auxiliary.cpp:866-881 | "product = 'p'" for each product in turn, " and " between them |
| Aux.BuildReactionCondition | nnt/auxiliary.cpp:830-883 | one reaction's condition: "reactant = 'r' and " per reactant, then "product = 'p'" per product joined by " and ", in parentheses |
| Aux.CreateReacXPath | nnt/auxiliary.cpp:815-893 | "[", each named reaction's condition joined by " or ", "]" |
| Aux.ProductClausesInterleaved | nnt/auxiliary.cpp:866-881 | the product clauses are the products' "product = 'p'" clauses in order, separated by " and " |
| Aux.JoinedConditionsInterleaved | nnt/auxiliary.cpp:815-893 | the reaction conditions appear in the order of the list, separated by " or " |
| Aux.GetVector | nnt/auxiliary.cpp:1545-1584 | the linear or logarithmic grid; any other spacing is an error |
| Aux.FillLinear | nnt/auxiliary.cpp:1545-1584 | point i is x_min + i·del |
| Aux.FillLogarithmic | nnt/auxiliary.cpp:1545-1584 | point i is x_min·10^(i·del) |
| Aux.LinearGridEnds | nnt/auxiliary.cpp:1545-1584 | a linear grid of n ≥ 2 points runs from x_min to x_max in equal steps |
| Aux.LogarithmicGridEnds | nnt/auxiliary.cpp:1545-1584 | a logarithmic grid of n ≥ 2 points runs from x_min to x_max |
| Aux.ReactionElementCount | nnt/auxiliary.cpp:1088-1131 | the count of the name among the reactants or the products; any other kind is an error |
| Common.CountOccurrences | nnt/auxiliary.cpp:1088-1131 | the number of occurrences of the element in the list, its multiplicity; Reac.AddToSide uses it for the count Libnucnet__Reac.c takes by removal |
| Aux.DotScaled | nnt/auxiliary.cpp:899-926 | scaling the abundances scales Σ A·Y |
| Aux.NormalizedSumIsOne | nnt/auxiliary.cpp:899-926 | after dividing by Σ A·Y the mass fractions sum to 1 |
| Aux.NormalizeZoneAbundances | nnt/auxiliary.cpp:899-926 | when Σ A·Y > 0 the listed abundances are divided by it and the mass fractions then sum to 1; otherwise the source's exit, modelled as a Failure carrying "Invalid abundances in zone." with nothing changed; other species untouched |
| FlowUtilities.Pending | user/flow_utilities.cpp:241-282 | the exclusion either stays or is cleared |
| FlowUtilities.ProductWithoutExclusion | user/flow_utilities.cpp:241-282 | with nothing left out the product is the plain product of the listed abundances |
| FlowUtilities.ProductExcludesOnce | user/flow_utilities.cpp:241-282 | the left-out species is skipped once: the product times its abundance is the plain product; the exclusion is cleared exactly when it is listed |
| FlowUtilities.ComputeAbundanceProduct | user/flow_utilities.cpp:241-282 | the loop gives the product of the listed abundances with the left-out species skipped once |
| FlowUtilities.ReactantAbsentStopsForwardFlow | user/flow_utilities.cpp:313-374 | a reactant with abundance 0 makes the forward flow 0 |
| FlowUtilities.ProductHasZeroFactor | user/flow_utilities.cpp:241-282 | a listed species of abundance 0 makes the product 0 |
| FlowUtilities.FlowsNonNegative | user/flow_utilities.cpp:313-374 | non-negative rates, density and abundances give non-negative forward and reverse flows |
| FlowUtilities.ComputeFlowsForReaction | user/flow_utilities.cpp:313-374 | each side's flow is rate·ρ^(n−1)·ΠY over the duplicate factor |
| FlowUtilities.ForwardFlowSum | user/flow_utilities.cpp:409-477 | the forward flow vector adds up to each forward flow counted once per reactant |
| FlowUtilities.ReverseFlowSum | user/flow_utilities.cpp:491-559 | the reverse flow vector adds up to each reverse flow counted once per product |
| FlowUtilities.NetFlowSum | user/flow_utilities.cpp:572-671 | the net flow vector adds up to each net flow counted once per reactant, less once per product |
| FlowUtilities.NetFlowSumBalanced | user/flow_utilities.cpp:572-671 | when every reaction has as many reactants as products, the net flows add up to 0 |
| FlowUtilities.NetFlowConserves | user/flow_utilities.cpp:572-671 | a quantity every reaction carries equally in and out (mass number, charge) has Σ w·flow = 0 |
| FlowUtilities.NetFlowOpposesLibnucnet | user/flow_utilities.cpp:572-671 | the net flow vector is exactly the negation of libnucnet's flow vector built from the same reactions |
| FlowUtilities.SumEntries | user/flow_utilities.cpp:687-718 | the sum of the vector's entries |
| FlowUtilities.ComputeForwardFlowVector | user/flow_utilities.cpp:409-477 | a fresh vector equal to the forward flow vector |
| FlowUtilities.ComputeReverseFlowVector | user/flow_utilities.cpp:491-559 | a fresh vector equal to the reverse flow vector |
| FlowUtilities.ComputeNetFlowVector | user/flow_utilities.cpp:572-671 | a fresh vector equal to the net flow vector |
| FlowUtilities.ComputeTotalFlow | user/flow_utilities.cpp:687-718 | the forward, reverse or net total; an error exactly for any other kind |
| FlowUtilities.AccumulatedCurrent | user/flow_utilities.cpp:1303-1370 | each reaction string's current grows by the net flows times dt of the reactions with that string; others untouched |
| FlowUtilities.CurrentIncrementOfDistinct | user/flow_utilities.cpp:1303-1370 | with distinct reaction strings each current grows by its own reaction's (forward − reverse)·dt |
| FlowUtilities.AccumulateCurrents | user/flow_utilities.cpp:1303-1370 | the loop gives the accumulated table |
| FlowUtilities.FlowCurrentZone.UpdateFlowCurrents | user/flow_utilities.cpp:1303-1370 | the zone's currents become the accumulated table |
| MultiZone.GetNewTimestepFromZones | user/multi_zone_utilities.cpp:118-151 | the new step is at most (1 + regt)·dt and at most the step every limiting species of every zone's network allows, and equals one of them |
| MultiZone.CheckMultiZoneMassFractions | user/multi_zone_utilities.cpp:201-222 | 0 exactly when some zone's 1 − ΣA·Y exceeds the threshold, 1 otherwise |
| MultiZone.HasMass | user/multi_zone_utilities.cpp:835-863 | which zones carry a zone mass |
| MultiZone.MultiMassAsWrittenMeaning | user/multi_zone_utilities.cpp:835-863 | as written the check fails exactly when a zone without mass follows one with mass, and otherwise reports whether any zone has a mass |
| MultiZone.MultiMassAsWrittenAcceptsMissingMass | user/multi_zone_utilities.cpp:835-863 | as written, a zone without mass followed by one with mass is accepted as a multi-mass calculation |
| MultiZone.MultiMassCheckedRefines | user/multi_zone_utilities.cpp:835-863 | the intended check rejects all the written one rejects, agrees wherever it accepts, and its multi-mass answer means every zone has a mass |
| MultiZone.CheckedMassesUniform | user/multi_zone_utilities.cpp:835-863 | zones passing the check all have a mass or none has |
| MultiZone.MultiMassCalculationCheck | user/multi_zone_utilities.cpp:835-863 | the intended check |
| MultiZone.FullVectorLength | user/multi_zone_utilities.cpp:255-339 | the full vector has one block of n (or n + 1 with masses) entries per zone |
| MultiZone.FullVectorBlock | user/multi_zone_utilities.cpp:255-339 | zone i's block, mass then m·A·Y or just Y, sits after the blocks of the zones before it |
| MultiZone.CopyInto | user/multi_zone_utilities.cpp:255-339 | the block is written at the start offset; entries before it are unchanged |
| MultiZone.CreateFullVector | user/multi_zone_utilities.cpp:255-339 | the full vector of the zones' blocks; an error exactly when zones with and without mass are mixed. It applies the corrected multi-mass check, so zones [no mass, mass], which the source as written packs, are an error here (see Findings) |
| MultiZone.PackZones | user/multi_zone_utilities.cpp:255-339 | the loop fills the full vector block by block |
| MultiZone.UnscaledPacked | user/multi_zone_utilities.cpp:345-460 | dividing m·A·Y by m and A gives Y back |
| MultiZone.UpdateAfterCreate | user/multi_zone_utilities.cpp:255-460 | packing the zones and unpacking the result as abundances restores every zone's abundances and masses |
| MultiZone.UnpackedZoneByZone | user/multi_zone_utilities.cpp:345-460 | a result agreeing zone by zone with the unpacking of each block is the unpacking |
| MultiZone.UnpackZone | user/multi_zone_utilities.cpp:345-460 | zone i's abundances (or changes) from its block, divided by mass and A; the mass or mass change from the block's first entry |
| MultiZone.UpdateFromFullVector | user/multi_zone_utilities.cpp:345-460 | the zones' new vectors, masses and mass changes; a mixed set of zones or an unknown kind is an error |
| MultiZone.UnpackZones | user/multi_zone_utilities.cpp:345-460 | the loop unpacks the zones block by block |
| MultiZone.ZoneCompareByLabelsMeaning | user/multi_zone_utilities.cpp:661-687 | never 0; −1 exactly when the first label is lexically smaller, or equal with the second label reading as the smaller number |
| MultiZone.ZoneCompareByLabelsTransitive | user/multi_zone_utilities.cpp:661-687 | "before" is transitive |
| Evolve.FirstLargeNegative | user/evolve.cpp:344-391 | the first index holding a large negative abundance, none before it |
| Evolve.FirstLargeNegativeIs | user/evolve.cpp:344-391 | the scan stops exactly at the first large negative abundance |
| Evolve.NonnegScanMeaning | user/evolve.cpp:344-391 | the scan succeeds exactly when no abundance is large and negative; it then leaves no negative abundance; each entry is kept or was a small negative set to 0 |
| Evolve.NonnegScanWithoutThreshold | user/evolve.cpp:344-391 | without the zone's threshold nothing is zeroed and the scan succeeds exactly when every abundance is non-negative |
| Evolve.MaxRelativeChangeIsMaximum | user/evolve.cpp:821-871 | the check is non-negative, bounds \|Δy/y\| of every species above the threshold, and is 0 or attained by one of them |
| Evolve.CheckMatrixSolution | user/evolve.cpp:821-871 | the largest relative correction and the norm of the mass-weighted correction |
| Evolve.NewtonResult | user/evolve.cpp:46-196 | evolve returns −1 (only with a threshold set) or an iteration count between 1 and itmax + 1, never 0 |
| Evolve.NewtonContinuesNonNegative | user/evolve.cpp:46-196 | an iteration that goes on, with a threshold set, leaves non-negative abundances |
| Evolve.EvolvingZone.constructor | user/evolve.cpp:397-488 | the zone's abundances, zero changes, step, threshold, time 0, T9, ρ and step count 0 |
| Evolve.EvolvingZone.IsNonnegAbunds | user/evolve.cpp:344-391 | the result and the abundances left by the scan |
| Evolve.EvolvingZone.Evolve | user/evolve.cpp:46-196 | the result and abundances of the Newton iteration from the zone's abundances; the changes are new − old unless the result is −1 |
| Evolve.CheckedAbundancesMeaning | user/evolve.cpp:202-211 | the check changes an abundance only by zeroing a small negative one; a pass without balanced mass fractions leaves no negative abundance; it fails exactly when the fractions do not balance and some abundance is large and negative |
| Evolve.EvolvingZone.DefaultSafeEvolveCheck | user/evolve.cpp:202-211 | true when the mass fractions sum to 1 within xEps, else the scan's result, with its zeroing applied |
| Evolve.EvolvingZone.SafeEvolve | user/evolve.cpp:233-316 | the steps cover at least dt, the changes are measured from the starting abundances, and the step is set back to dt |
| Evolve.EvolvingZone.FirstSafeStep | user/evolve.cpp:248-284 | the step it settles on passed the check or is at most dtMin; it is dt1 cut by 10 some number of times, and DTIME is left equal to it; a first trial that passes keeps dt1 and its checked abundances; after cuts, the first trial and every trial before the last failed, each cut was made from a step above dtMin, and the verdict and abundances are those of the last trial, evolved from the starting abundances |
| Evolve.EvolvingZone.CutSteps | user/evolve.cpp:275-284 | on exit the check passed or the step is at most dtMin; the step is s0 divided by 10 once per cut; no cut exactly when the first verdict passed or s0 is at most dtMin, and then nothing changes; after cuts, every cut was made from a step above dtMin after a failed trial, and the verdict, abundances and DTIME are those of the last trial from the restored abundances |
| Evolve.EvolvingZone.CutOnce | user/evolve.cpp:275-284 | one pass of the cutting loop: the step becomes a tenth of itself and the loop state is kept, the new verdict, abundances and DTIME being those of the trial over the new step from the restored abundances |
| Evolve.CutTrialsStep | user/evolve.cpp:275-284 | a failed trial over a step above dtMin, followed by the trial over a tenth of it, keeps the cutting loop's state |
| Evolve.EvolvingZone.CheckedStep | user/evolve.cpp:233-316 | DTIME is the step; the verdict and the abundances are those of the default check applied to evolve's Newton result from the old abundances over that step; the changes are new − old unless evolve returned −1 |
| Evolve.EvolvingZone.GrowingSteps | user/evolve.cpp:233-316 | the growing steps cover at least dt |
| Evolve.NextTrialStepBounds | user/evolve.cpp:233-316 | each trial step is positive, 1.15 times the last unless it is the clipped last one, and ends at most 1e-30 past dt |
| Evolve.CutShrinks | user/evolve.cpp:233-316 | dividing a step above dtMin by 10 lowers the number of dtMin it holds, so the cutting stops |
| Evolve.GrowthProgress | user/evolve.cpp:233-316 | each growing step lowers the number of s0 steps left before dt, so the loop ends |
| Evolve.ConditionsAt | user/evolve.cpp:505-528 | T9 = T9_0·exp(−t/3τ) and ρ = ρ_0·exp(−t/τ), floored at 1e-6 and 1e-18 |
| Evolve.ClippedStep | user/evolve.cpp:545-557 | the next step never carries the time past tEnd, and a step that fits is kept |
| Evolve.EvolvingZone.EvolveZoneStep | user/evolve.cpp:493-580 | one step of the loop: count and time advanced, T9 and ρ from the expansion, abundances evolved, failure exactly when evolve failed, the abundance changes new minus old unless evolve returned −1 (then unchanged), then the clipped next step |
| Evolve.ConvergenceProblemAsWrittenNeverFires | user/evolve.cpp:536-540 | as written the test of evolve's result never fires |
| Evolve.ConvergenceProblemAsWrittenMissesFailure | user/evolve.cpp:536-540 | for every convergence tolerance up to 2, a one-species run where evolve returns −1 and the written test lets it pass |
| Evolve.ConvergenceProblemDetectsFailure | user/evolve.cpp:536-540 | the corrected test fires exactly when evolve returns −1 |

## Left out

- XML, XPath and schema handling (the `*__new_from_xml`, `assign*FromXml`, `updateFromXml` and `writeToXmlFile` readers and writers, the WnMatrix COO, CSR, Yale and vector XML files): this is libxml2 I/O. An XPath-selected view enters the model as the set or list of what it selects.
- The numerical solvers: `WnMatrix__solve` (GSL LU), the arrow matrix's Gaussian elimination, the Brent solves of `Libnuceq__solveEquilibrium` and the WSE and NSE functions. They are floating-point numerics; the model keeps the bookkeeping around them.
- Spline interpolation inside partition-function and rate tables, the non-smoker fit exponentials, the NSE factors, quantum abundances and the Fermi-Dirac factors. The model keeps what happens at and outside the table ends; the interior value is a parameter.
- exp, log, log10, pow, sqrt, atof and atoi are function parameters. No property of the real functions is assumed except where a lemma says so in its `requires`.
- The reaction rates a zone holds are parameters of the flow vectors and flows. The computation of rates from temperature and density is not part of this model.
- The Jacobian, the right-hand side and the linear solve of the Newton iteration in `user/evolve.cpp` are one parameter, the correction vector they produce.
- The constants of `user/evolve.h` (I_ITMAX, D_MIN, D_Y_MIN, D_X_EPS) are not part of this model; they enter as parameters.
- The branch of `evolve` for zones evolved in NSE with weak rates, `evolve_nse_plus_weak_rates` and `set_zone_for_evolution`: these solve equilibria numerically.
- Custom safe-evolve check functions: only `default_safe_evolve_check_function` is modelled. `safe_evolve`'s overloads that fill in default arguments are not modelled separately.
- Nuc.Nuc.UpdateSpecies: the source returns 0 when the stored species is the very same object as the argument. Species here are values, so the model compares the stored value with the argument. The state list is walked in the order of the collection's compare function; the model removes the states in any order, and Nuc.ExceptExcept shows that the result does not depend on it.
- WnMatrix.Matrix.InsertMatrix: the block must be another matrix. The C code also accepts a matrix inserted into itself, which reads the block while it is being changed; that aliasing is not modelled.
- Nuc.Nuc.SortSpecies: a user compare function must be irreflexive and transitive and must tell every two species of the collection apart. For a compare that returns 0 for two different species, qsort leaves their relative order unspecified, and the model does not cover that case.
- Nuceq.Equil.ComputeAbundances: the Brent solve of each cluster of non-zero constraint is not modelled. The root it returns is a parameter, one per cluster. The model relies on GSL's Brent iteration evaluating the cluster function last at the root it returns, so the members keep their abundances at that root. The fatal exit when no root can be bracketed is not modelled, because the root is given.
- Evolve.EvolvingZone.EvolveZoneStep: one pass of `evolve_zone`'s loop. The surrounding loop, its printing, its exit on failure (here a `Failure` result) and `limit_evolution_network` are not modelled. The next step that `Libnucnet__Zone__updateTimeStep` proposes is a parameter (`NetZone.UpdateTimeStep` models that rule).
- Evolve.EvolvingZone.SafeEvolve: states the elapsed time, the final DTIME and the abundance changes, but not the final abundances, which depend on every trial.
- Evolve.EvolvingZone.GrowingSteps: states the elapsed time, not the abundances each growing step leaves.
- Evolve.EvolvingZone.Evolve: states the result and the new abundances through the Newton function. The abundance changes when evolve returns −1 are left as they were, because the source returns before storing them.
- OpenMP pragmas in `user/multi_zone_utilities.cpp`: the loops are sequential here.
- Memory management: allocation, deallocation, hash destructors and string duplication. Collections are values or class fields.
- The Yale sparse layout (`WnMatrix__getYale`) and the matrix-vector products of `WnMatrix.c`: no property of them is stated here.
- The zone graphs, views, printing and HDF5 output of the NucNet Tools helpers, and the thermodynamics and statistical-mechanics libraries: these are I/O or numerical.
- Every hash walk in the source has an order set by the hash. The model walks maps in an unspecified order and states results that do not depend on it, or takes the order as a parameter where the result does.

## Findings

| source | as written | input that shows it | evidently intended | confidence | as-written member | corrected member |
|---|---|---|---|---|---|---|
| vendor/wn_matrix/0.18/src/WnMatrix.c:1436-1488 | `getCsr` assigns a row-pointer entry only for rows up to the last non-empty row, plus the final entry | a 2 × 2 matrix whose one element is at (1, 1): the entry for the end of row 1 is never assigned, where CSR needs 1 | every entry j holds the number of elements in rows 1..j | not executed | WnMatrixLayouts.CsrTrailingRowUnassigned | WnMatrixLayouts.GetCsr |
| vendor/libnucnet/0.28/src/Libnucnet.c:5139-5218 | `relabelZone` tests for a clash with the labels as given, where a missing label matches no zone, but stores the zone under the labels with "0" filled in | zones ("0","0","0") and ("1","0","0"); relabel the second with labels ("0", none, none): the zone is removed and re-adding it fails, so the call returns 0 and the zone is gone from the table | the clash test uses the labels the zone would get, and a refused relabel changes nothing | not executed | Libnucnet.RelabelAsWrittenLosesZone | Libnucnet.Relabelled |
| nnt/auxiliary.cpp:349-407 | `species_sort_function` tests for he4 in the first argument before it checks whether the second is he4 too | he4 compared with itself gives 1 | 0 for the same species, as for every other species | not executed | Aux.SortFunctionAsWrittenNotReflexive | Aux.SortFunctionOrder |
| user/multi_zone_utilities.cpp:835-863 | `multi_mass_calculation_check` rejects a zone without mass only after a zone with mass has been seen | two zones, the first without mass and the second with one: accepted as a multi-mass calculation, and the packing then reads the first zone's missing mass | any mixture of zones with and without mass is an error | not executed | MultiZone.MultiMassAsWrittenAcceptsMissingMass | MultiZone.MultiMassCheckedRefines |
| user/evolve.cpp:536-540 | `evolve_zone` treats `!evolve(zone)`, a result of 0, as the convergence problem, but `evolve` never returns 0 and reports failure with −1 | one species with abundance 1, a large-negative threshold of 0.5, a correction of −2 and any convergence tolerance up to 2 (the relative change is 2): `evolve` returns −1 and the step goes on | stop with "Problem converging." when `evolve` returns −1 | not executed | Evolve.ConvergenceProblemAsWrittenMissesFailure | Evolve.ConvergenceProblemDetectsFailure |

## Code and documentation

- `zone_compare_by_first_label` in `nnt/auxiliary.cpp` is documented to return 0 when the two zones are the same (lines 248-256), but the code answers -1 or 1 for every pair, 1 included when a zone is compared with itself. The model follows the code (`Aux.CompareByFirstLabelProperties`).
- `zone_compare_by_labels` in `user/multi_zone_utilities.cpp` is documented to return 0 for equal zones (lines 655-658), but the code never returns 0: it answers -1 or 1 for every pair. The model follows the code.
- `evolve` in `user/evolve.cpp` is documented to return at most I_ITMAX iterations. When the loop runs out without converging, its counter ends at I_ITMAX + 1, and that is what it returns. The model follows the code (`Evolve.NewtonResult`).
