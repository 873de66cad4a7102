# Sensitivity and specificity of GWAS hits: a verified model

Two scripts post-process the output of a bacterial genome-wide association
study. The first reads three tab-separated tables:

- the GWAS hits, one row per associated variant with a `variant` column;
- a phenotype table with one row per sample;
- a presence/absence matrix, one row per gene and one 0/1 column per sample.

It splits the samples by a binary phenotype into the group of interest
(phenotype 1) and the compared group (phenotype 0). For each variant it
counts how many samples of each group carry (1) or lack (0) the gene. It then
appends eight columns to the GWAS table, in place:

- the sensitivities `sensi_1` and `sensi_0`: shares of 1s and of 0s in the
  group of interest;
- the specificities `speci_1` and `speci_0`: shares of 0s and of 1s in the
  compared group;
- the four raw counts behind those shares.

The second script validates the thresholds and checks that the named columns
exist. It optionally keeps only the hits below a p-value threshold, then
extracts two subsets: hits whose presence sensitivity and presence
specificity are both strictly above their thresholds, and the same for
absence. It also derives the names of the two output files.

The model has four modules:

- `Seqs` (`seqs.dfy`): boolean-mask selection (`Filter`, `Positions`) and
  counting (`Count`, the multiplicity; `MaskSum`, the element-by-element sum
  of a mask).
- `Tables` (`tables.dfy`): cells (`Str`, `Num`, `NaN`), rows and tables, and
  positional column assignment (`WithColumn`, `AssignAll`). The class `Frame`
  is the data frame whose columns the statistics script assigns in place.
- `SensiSpeci` (`sensi_speci.dfy`): the statistics engine.
  - `ComputeStats` is the whole computation as a function.
  - `Run` is the `__main__` block as a method over a `Frame`. It performs the
    eight assignments one after another through the alias `tmp`, and its
    contract ties the final frame to `ComputeStats`.
- `SensiSpeciFilter` (`sensi_speci_filter.dfy`): the threshold filter, pure.
  Its entry point is `FilterGwas`.

## Behaviour worth knowing

- **Empty group.** The code divides without a guard, so the ratios of an empty
  group are NaN (`Ratio`, `EmptyGroupStats`). No error is raised.
- **Duplicate matrix rows.** The code counts every matrix row whose identifier
  is a GWAS variant, and assigns the resulting list by position. Rows sharing
  an identifier are not summed per variant. A variant with no matrix row
  contributes no value to the list.
- **Length mismatch.** When the number of kept matrix rows differs from the
  number of GWAS rows, the assignment fails (`LengthMismatch`). When the
  numbers agree, row `i` holds the statistics of the `i`-th kept matrix row
  (`AugmentedValues`).
- **`speci_1` as a complement.** The code computes it from counts of 0s. The
  complement form `1 - count1 / size` appears only in a comment and in the
  unused `get_binary_classif`; the model proves the two forms agree on a 0/1
  matrix (`RowStatsFacts`, `ComplementAgrees`).

## Model

| member | source | states |
|---|---|---|
| SensiSpeci.GroupMembers | src/pyseer_sensi_speci.py:118-119 | a sample is in the group for `v` exactly when one of its phenotype rows holds `v` in the chosen column; other values and empty cells leave it out |
| SensiSpeci.PartitionDisjoint | src/pyseer_sensi_speci.py:118-119 | with unique sample identifiers no sample is both in the group of interest and in the compared group |
| SensiSpeci.SelectColumns | src/pyseer_sensi_speci.py:130 | restricting the matrix to a group's columns keeps every row and its identifier, and the result has exactly the group's columns |
| SensiSpeci.SelectKeepsPositions | src/pyseer_sensi_speci.py:130 | selecting columns does not change which rows the identifier mask keeps |
| SensiSpeci.SelectBinary | src/pyseer_sensi_speci.py:130 | a 0/1 matrix stays 0/1 after column selection |
| SensiSpeci.KeptRows | src/pyseer_sensi_speci.py:83 | the kept rows are exactly the rows whose identifier is relevant, unchanged and in matrix order |
| SensiSpeci.MutationCount | src/pyseer_sensi_speci.py:81-86 | one value per relevant matrix row and no other, in matrix order; each is the number of that row's cells equal to `mutation`, at most the number of samples |
| SensiSpeci.BinaryClassif | src/pyseer_sensi_speci.py:90-95 | one value per relevant matrix row |
| SensiSpeci.ClassifyForms | src/pyseer_sensi_speci.py:93-95 | for a row of `c1` ones and `c0` zeros the plain form is `c1 / n` and the specificity form is both `c0 / n` and `1 - c1 / n` |
| SensiSpeci.ComplementAgrees | src/pyseer_sensi_speci.py:90-95 | on a 0/1 matrix the unused sum-based function agrees with the count-based ratios: the plain form gives the share of 1s, the complement form the share of 0s |
| SensiSpeci.RatiosScale | src/pyseer_sensi_speci.py:130-135 | over a non-empty group every ratio is a number that times the group size is its count; over an empty group every ratio is NaN |
| SensiSpeci.StatColumns | src/pyseer_sensi_speci.py:130-143 | the eight assignments carry the eight names in the order assigned, each with one value per kept matrix row |
| SensiSpeci.AugmentedShape | src/pyseer_sensi_speci.py:128-143 | the augmented table is well formed; it keeps the row count and every cell outside the eight columns; its columns gain exactly the eight names, and they are appended in order when none existed before |
| SensiSpeci.AugmentedValues | src/pyseer_sensi_speci.py:130-143 | row `i` holds the ratios and counts of the `i`-th kept matrix row (positional assignment) over the two groups' cells |
| SensiSpeci.RowStatsFacts | src/pyseer_sensi_speci.py:130-143 | over non-empty groups every ratio lies in [0, 1]; each raw count is its ratio times the group size; on a 0/1 matrix `sensi_1 + sensi_0 = 1` and `speci_1 + speci_0 = 1` |
| SensiSpeci.GroupStatsFacts | src/pyseer_sensi_speci.py:130-143 | the facts of `RowStatsFacts` for a single group with given counts of ones and zeros |
| SensiSpeci.EmptyGroupStats | src/pyseer_sensi_speci.py:130-135 | over an empty group both of its ratios are NaN and both counts are 0 |
| SensiSpeci.AlignedRowsDescribeOwnVariant | src/pyseer_sensi_speci.py:128-143 | when the kept matrix rows are the GWAS variants in table order and identifiers are unique, each GWAS row holds the statistics of its own variant's matrix row |
| SensiSpeci.AugmentedIdempotent | src/pyseer_sensi_speci.py:128-143 | computing the columns again on the augmented table reproduces it, and leaves the variants unchanged |
| SensiSpeci.MissingSamples | src/pyseer_sensi_speci.py:130 | lists only samples of the group that are not matrix columns, and is empty exactly when the whole group is in the matrix (otherwise `df_rtab[group]` raises) |
| SensiSpeci.ComputeStats | src/pyseer_sensi_speci.py:112-143 | succeeds exactly when the phenotype column exists, both groups are in the matrix, the `variant` column exists and the counts match the rows, and then the result is the augmented table; the missing phenotype column is reported first, and the compared-group failure only after all other checks pass |
| SensiSpeci.ComputeStatsIdempotent | src/pyseer_sensi_speci.py:112-143 | running the computation on its own output gives the same output |
| SensiSpeci.Run | src/pyseer_sensi_speci.py:112-143 | the frame ends up holding `ComputeStats`' table on success; every failure reports `ComputeStats`' error and leaves the frame unchanged, except the compared-group failure, which keeps the two sensitivity columns already assigned |
| SensiSpeci.AssignSensi | src/pyseer_sensi_speci.py:130-131 | after the two sensitivity assignments the frame is the old table with the two columns, and the variants are unchanged |
| SensiSpeci.AssignRest | src/pyseer_sensi_speci.py:133-143 | after the remaining six assignments the frame is the augmented table |
| SensiSpeci.AssignSpeci | src/pyseer_sensi_speci.py:133-135 | the two specificity assignments extend the frame by the third and fourth of the eight assignments |
| SensiSpeci.AssignCounts | src/pyseer_sensi_speci.py:139-143 | the four count assignments extend the frame by the last four of the eight assignments |
| SensiSpeci.AssignThrough | src/pyseer_sensi_speci.py:130-143 | one `tmp[name] = values` step takes the frame from the first `k` assignments to the first `k + 1` and leaves its variants unchanged |
| Tables.WithColumn | src/pyseer_sensi_speci.py:130 | positional assignment keeps the rows, writes value `i` into row `i`, leaves every other cell alone, keeps an existing column in place and appends a new one last |
| Tables.WithColumnWellFormed | src/pyseer_sensi_speci.py:130 | an assignment keeps the table well formed and adds exactly the assigned name to its columns |
| Tables.AssignAllColumns | src/pyseer_sensi_speci.py:128-143 | a sequence of assignments keeps the table well formed and adds exactly the assigned names |
| Tables.AssignAllAppends | src/pyseer_sensi_speci.py:128-143 | distinct new names are appended in the order assigned |
| Tables.AssignAllValues | src/pyseer_sensi_speci.py:128-143 | after distinct assignments each assigned column holds its values and every other cell is unchanged |
| Tables.AssignAllSameValues | src/pyseer_sensi_speci.py:128-143 | reassigning columns the values they already hold changes nothing |
| Tables.Frame.Assign | src/pyseer_sensi_speci.py:130 | `frame[name] = values` replaces the frame's table by `WithColumn` of it and keeps it well formed |
| Seqs.Filter | src/pyseer_sensi_speci.py:83 | the boolean-mask selection keeps only elements satisfying the mask, and every such element |
| Seqs.Positions | src/pyseer_sensi_speci.py:83 | the kept indices are increasing and are exactly those whose element satisfies the mask |
| Seqs.FilterAtPositions | src/pyseer_sensi_speci.py:83 | the `k`-th kept element is the element at the `k`-th kept index |
| Seqs.FilterIdempotent | src/sensi_speci_filter.py:155-161 | applying the same mask twice selects what applying it once does |
| Seqs.MaskSumIsCount | src/pyseer_sensi_speci.py:86 | summing the mask `cells == v` gives the number of occurrences of `v` |
| Seqs.CountBound | src/pyseer_sensi_speci.py:86 | a count never exceeds the number of cells |
| Seqs.CountBinary | src/pyseer_sensi_speci.py:86 | in a 0/1 row the 1s and the 0s together are all the cells |
| Seqs.SumBinary | src/pyseer_sensi_speci.py:94-95 | in a 0/1 row the plain row sum is the number of 1s |
| SensiSpeciFilter.DefaultsValid | src/sensi_speci_filter.py:24-39 | the default thresholds pass validation, and so do the bounds 0 and 1 themselves |
| SensiSpeciFilter.AllInUnitInterval | src/sensi_speci_filter.py:114 | true exactly when every threshold lies in the closed interval [0, 1] |
| SensiSpeciFilter.ValidateOptions | src/sensi_speci_filter.py:107-121 | accepts exactly when all four thresholds and the p-value threshold lie in [0, 1]; a bad threshold is reported before a bad p-value threshold |
| SensiSpeciFilter.MissingColumns | src/sensi_speci_filter.py:135-143 | the missing names are exactly the named columns absent from the table; there are none exactly when all four are present |
| SensiSpeciFilter.SameNameCollapses | src/sensi_speci_filter.py:135-138 | naming one column for all four roles yields a one-element set |
| SensiSpeciFilter.Select | src/sensi_speci_filter.py:150 | row selection keeps the columns and the selected rows unchanged and in order |
| SensiSpeciFilter.SelectFacts | src/sensi_speci_filter.py:150-161 | selection keeps a table well formed, and selecting twice by the same mask is selecting once |
| SensiSpeciFilter.RestrictPValue | src/sensi_speci_filter.py:146-150 | with threshold 1 the table passes unchanged; otherwise a missing p-value column is the error; otherwise the rows below the threshold are kept |
| SensiSpeciFilter.RestrictPValueMembers | src/sensi_speci_filter.py:146-150 | a row survives exactly when its p-value is a number strictly below the threshold; a row at the threshold is dropped |
| SensiSpeciFilter.Presence | src/sensi_speci_filter.py:155-156 | the presence subset holds exactly the base rows strictly above both presence thresholds |
| SensiSpeciFilter.Absence | src/sensi_speci_filter.py:160-161 | the absence subset holds exactly the base rows strictly above both absence thresholds |
| SensiSpeciFilter.SubsetMembers | src/sensi_speci_filter.py:155-161 | a two-threshold subset holds exactly the rows above both thresholds |
| SensiSpeciFilter.SubsetExcludesBoundary | src/sensi_speci_filter.py:155-161 | a row exactly at either threshold is excluded |
| SensiSpeciFilter.SubsetsIdempotent | src/sensi_speci_filter.py:155-161 | filtering a subset again by its own thresholds changes nothing |
| SensiSpeciFilter.SubsetsMayOverlap | src/sensi_speci_filter.py:155-161 | the two subsets are independent: one row can be in both |
| SensiSpeciFilter.OutputNames | src/sensi_speci_filter.py:166-167 | each name is its prefix, then the stem, then `.txt` |
| SensiSpeciFilter.OutputNamesDistinct | src/sensi_speci_filter.py:166-167 | the two names always differ, and different stems give different names |
| SensiSpeciFilter.FilterGwas | src/sensi_speci_filter.py:107-167 | succeeds exactly when validation passes, the four columns exist and the p-value restriction succeeds; errors come in that order; the subsets are `Presence` and `Absence` of the restricted table |
| SensiSpeciFilter.FilterGwasSubsequences | src/sensi_speci_filter.py:146-161 | both subsets are order-preserving subsequences of the same base table with the GWAS columns; the base rows are GWAS rows; well-formedness is kept |

## Left out

- File reading and writing (`read_csv`, `to_csv`), progress messages, argument parsing, the file-existence checks and the `DEBUG` blocks are not modelled. The run returns its result or its error instead of writing files.
- The file stem (`Path.stem`) is an input string of the filter.
- Floating point is modelled by exact reals: there is no rounding and no infinity. NaN appears only where the source divides 0 by 0 (an empty group), or as an empty cell.
- SensiSpeci.BinaryClassif: requires a non-zero group size. The source would divide by zero, and the function is never called.
- SensiSpeciFilter.FilterGwas: requires that no compared column holds text (`Comparable`). pandas raises a `TypeError` when it compares text with a float, and that exception is not modelled.
- SensiSpeciFilter.ValidateOptions: thresholds are reals, so NaN thresholds (which pass no comparison) are not modelled.
- The matrix is modelled as integer cells of equal length (`Rectangular`). Text cells in the matrix are not modelled: `get_mutation_count` would count a text column in the group size and in neither count (the comparison makes it boolean, which `numeric_only` keeps), and `get_binary_classif` would drop it from the row sum.
- The reader's renaming of repeated matrix headers (`A`, `A.1`) is not modelled: the sample names are taken as read, and `SelectCells` takes the column of each sample's name.
- A `variant` cell matches a matrix identifier only when it is the same text. No type coercion is modelled.
- SensiSpeci.Run: after the compared-group failure the script aborts, so the two columns already assigned are never written to disk. The model says only what the frame in memory holds.

## Findings

None.
