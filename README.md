# Barcode cleaning, edit counts and sample similarity

A model of the preprocessing helpers in `py_scripts/barcode_utils.py` and of
the pairwise comparison in `py_scripts/cosim-heatmap.py`. These come from a
lineage-tracing pipeline for edited barcodes.

A barcode is a string of site tokens joined by `_`. `NONE` marks an unedited
site. Other tokens are edits, such as `5D` for a deletion or `5M2S` for a
match with a substitution. A site that carries several alleles joins them
with `&`.

What is modelled:

- Substitution cleaning. A token containing `S` is a substitution. A site
  holding only a substitution becomes `NONE`. A multi-allelic site keeps
  only its alleles without `S`.
- Read-count tables. Each row of a table is an event (a barcode) with its
  read count. A table is cleaned row by row, then duplicate events are
  collapsed by summing their counts, and the rows are sorted by count,
  largest first.
- Edit counts. One count is the number of alleles introduced by a
  barcode's distinct edits. The other is the number of distinct edits of
  each kind: an indel occupies one site, a multi-site edit occupies
  several.
- Sample similarity. To compare two samples, the unedited barcode is
  dropped from both tables and counts become proportions. Both samples
  are then laid out as vectors over the union of their events, and the
  dot products are taken. The sample-by-sample matrix is filled on and
  above the diagonal and then mirrored.

Modules:

- `Text` (`text.dfy`) models Python's `str.split` and `str.join`.
  `Split` always returns at least one piece, as Python does.
- `Substitutions` (`substitutions.dfy`) covers `MismatchExists`,
  `is_multiallelic` (as `IsMultiAllelic`) and `RemoveSubstitutions`.
  `CleanBarcode` is the reference definition that the loop is proved
  against.
- `Aggregation` (`aggregation.dfy`) covers `CleanSubstitutions`. A table
  is a sequence of `Row(event, count)`. The cleaned copy is a local array.
  The `groupby` sum is a map, and `sort_values` is repeated extraction of
  a maximum.
- `EditCounts` (`edit_counts.dfy`) covers `countEdits` and
  `countEditsbyType`.
- `Cosim` (`cosim.dfy`) covers the body of the double loop up to the dot
  products, the loop itself, and `symmetrize`.
- `Wrappers` (`wrappers.dfy`) holds the `Option` type.

Python's `set` iteration order is not modelled. The loops pick elements
with `:|`, so every proved property holds for any order. The same goes
for the order `list(set)` produces, and for how `sort_values` orders equal
counts.

Where the code and its written description disagree, the model follows
the code:

- A multi-allelic site whose alleles all carry `S` becomes the empty
  string, not `NONE`.
- `countEditsbyType` with an unknown kind prints a message and returns
  no value (`None`); it does not raise.
- The order in which ties are sorted is left unspecified.

## Model

| member | source | states |
|---|---|---|
| Substitutions.MismatchExists | py_scripts/barcode_utils.py:12-16 | A token has a substitution exactly when some position of it holds `S`. |
| Substitutions.IsMultiAllelic | py_scripts/barcode_utils.py:18-22 | A token is multi-allelic exactly when some position of it holds `&`. |
| Substitutions.RemoveSubstitutions | py_scripts/barcode_utils.py:24-49 | The loop over the `_`-separated sites returns exactly `CleanBarcode(barcode)`, the site-by-site reference cleaning. |
| Substitutions.DropMismatchedAlleles | py_scripts/barcode_utils.py:41-47 | Removing each mismatched allele from the list while iterating a copy leaves exactly the alleles without `S`, in their original order. |
| Substitutions.RemoveFirstAt | py_scripts/barcode_utils.py:46 | `list.remove` deletes the first occurrence and nothing else. |
| Substitutions.RemoveFirst | py_scripts/barcode_utils.py:46 | `list.remove` of a present value leaves a list one element shorter. |
| Substitutions.RemoveFirstMultiset | py_scripts/barcode_utils.py:46 | `list.remove` takes away exactly one copy of the value, and the rest of the list is kept as a multiset. |
| Substitutions.WithoutMismatchesKeeps | py_scripts/barcode_utils.py:44-46 | An allele survives exactly when it was present and has no `S`. |
| Substitutions.CleanBarcodeSites | py_scripts/barcode_utils.py:25-49 | The cleaned barcode has as many sites as the input, and site i of the output is the cleaning of site i of the input. |
| Substitutions.CleanSiteRule | py_scripts/barcode_utils.py:31-47 | A site without `S` is unchanged. A substitution without `&` becomes `NONE`. A multi-allelic site becomes the `&`-join of its alleles without `S`, or the empty string when none survive. |
| Substitutions.CleanSiteChars | py_scripts/barcode_utils.py:28-47 | A cleaned site contains no `S` and introduces no `_`. |
| Substitutions.CleanBarcodeHasNoMismatch | py_scripts/barcode_utils.py:24-49 | No cleaned barcode contains a substitution. |
| Substitutions.CleanBarcodeUnchanged | py_scripts/barcode_utils.py:31-32 | A barcode without any `S` is returned unchanged. |
| Substitutions.CleanBarcodeIdempotent | py_scripts/barcode_utils.py:24-49 | Cleaning a cleaned barcode changes nothing. |
| Substitutions.LoneSubstitutionExample | py_scripts/barcode_utils.py:37-38 | `NONE_5M2S_NONE` cleans to `NONE_NONE_NONE`. |
| Substitutions.MultiAllelicExample | py_scripts/barcode_utils.py:40-47 | `A&5M2S_NONE` cleans to `A_NONE`. |
| Text.SplitJoin | py_scripts/barcode_utils.py:47-49 | Splitting a join of pieces that avoid the separator gives back the pieces. |
| Text.JoinSplit | py_scripts/barcode_utils.py:25 | Joining the pieces of a split gives back the string. |
| Text.SplitAround | py_scripts/barcode_utils.py:25 | Splitting `a + sep + b` splits `a` and `b` separately. |
| Text.Split | py_scripts/barcode_utils.py:25 | `str.split` always gives at least one piece, even for the empty string. |
| Text.SplitCount | py_scripts/barcode_utils.py:25 | A split has exactly one more piece than the string has separators. |
| Text.Join | py_scripts/barcode_utils.py:47-49 | A join starts with the first piece, and with two or more pieces the separator follows it. |
| Aggregation.CleanRowIsClean | py_scripts/barcode_utils.py:56-62 | A row is rewritten only when its event has a substitution. Its count is kept, and its new event is the cleaned barcode and has no `S`. |
| Aggregation.CleanedCopy | py_scripts/barcode_utils.py:53-62 | The copied table, after the loop over rows with a substitution, is exactly the row-by-row cleaning of the input. |
| Aggregation.CleanEventsHaveNoMismatch | py_scripts/barcode_utils.py:56-62 | No event of the cleaned table carries a substitution. |
| Aggregation.TotalCleanRows | py_scripts/barcode_utils.py:58-62 | Cleaning the rows of a table does not change its total read count. |
| Aggregation.GroupBySum | py_scripts/barcode_utils.py:65-66 | Collapsing duplicates maps each event of the table to the sum of the counts of its rows. |
| Aggregation.SortByCountDescending | py_scripts/barcode_utils.py:67 | The rows have distinct events, exactly the grouped keys, with the grouped counts, sorted by count from largest to smallest. |
| Aggregation.CleanSubstitutions | py_scripts/barcode_utils.py:51-69 | The result has distinct events, exactly the events of the cleaned rows. Each count is the sum of the matching cleaned rows. The rows are in non-increasing order of count, the total read count is conserved, and no event has a substitution. The caller's table is a value and is not modified. |
| Aggregation.GroupingConservesTotal | py_scripts/barcode_utils.py:65 | A table with distinct events whose counts are per-event sums of another table has the same total. |
| Aggregation.EventsWithout | py_scripts/cosim-heatmap.py:58-64 | Filtering out an event removes exactly that event from the table's events. |
| Aggregation.RowsWithout | py_scripts/cosim-heatmap.py:59 | No row of the filtered table has the filtered-out event. |
| Aggregation.MaxKey | py_scripts/barcode_utils.py:67 | The chosen event is one of the candidates and no candidate has a larger grouped count. |
| Aggregation.CollapseExample | py_scripts/barcode_utils.py:65 | Two `NONE_NONE` rows with counts 3 and 2 collapse to one event with count 5. |
| EditCounts.CountEdits | py_scripts/barcode_utils.py:71-85 | The count is the sum, over the distinct non-`NONE` tokens, of the number of `&`-alleles in each. |
| EditCounts.AlleleSumRemove | py_scripts/barcode_utils.py:76-83 | The allele sum does not depend on the order in which the distinct tokens are visited. |
| EditCounts.RemoveUneditedSites | py_scripts/barcode_utils.py:91-92 | Removing `NONE` while it is present leaves exactly the non-`NONE` sites, in order, and no `NONE`. |
| EditCounts.CountByMultiplicity | py_scripts/barcode_utils.py:95-108 | The two counts are the numbers of `Counter` keys with exactly one occurrence and with more than one. |
| EditCounts.CountEditsByType | py_scripts/barcode_utils.py:87-115 | `indel` yields the number of distinct edits at exactly one site. `multisite` yields the number at more than one site. Any other kind yields no value. |
| EditCounts.EditKindsPartition | py_scripts/barcode_utils.py:95-106 | Indels and multi-site edits are disjoint, and together they are exactly the distinct non-`NONE` tokens. |
| EditCounts.CountEditsBound | py_scripts/barcode_utils.py:71-115 | The allele count is at least the number of indels plus the number of multi-site edits. |
| EditCounts.UneditedCountsZero | py_scripts/barcode_utils.py:71-115 | A barcode whose every site is `NONE` has no edits, an allele count of 0, and no edits of either kind. |
| EditCounts.RepeatedTokenCountsOnce | py_scripts/barcode_utils.py:73 | Adding a site that repeats a present token leaves the distinct edits and the allele count unchanged. |
| EditCounts.EditTypeExample | py_scripts/barcode_utils.py:95-106 | `5D_5D_NONE` has one multi-site edit (`5D`) and no indel. |
| Cosim.NoneRunSites | py_scripts/cosim-heatmap.py:22 | A run of `n` unedited sites joined by `_` splits into exactly `n` sites, each `NONE`. |
| Cosim.UneditedBarSites | py_scripts/cosim-heatmap.py:22 | The unedited barcode has fifteen sites, all `NONE`, and so no distinct edit, no allele, no indel and no multi-site edit. |
| Cosim.RemoveUnedited | py_scripts/cosim-heatmap.py:57-64 | The unedited barcode's rows are filtered out, and it is dropped from the event set. The set still equals the remaining events, which stay distinct. |
| Cosim.WithoutAbsentEvent | py_scripts/cosim-heatmap.py:58 | When the unedited barcode is absent, the table is left as it was. |
| Cosim.Proportions | py_scripts/cosim-heatmap.py:66-74 | The dictionary has exactly the table's events. With distinct events, each value is the row's count over the total, in [0, 1]. There is no value exactly when a non-empty table has no reads. |
| Cosim.ProportionsSumToOne | py_scripts/cosim-heatmap.py:66-70 | With reads present, the proportion column sums to 1. |
| Cosim.IndexOf | py_scripts/cosim-heatmap.py:86 | `list.index` returns the first position holding the element. |
| Cosim.UnionList | py_scripts/cosim-heatmap.py:77-78 | The list has no duplicates, holds exactly the events of either sample, and its length is the size of the union. |
| Cosim.FillVector | py_scripts/cosim-heatmap.py:81-91 | Each coordinate is the proportion of the event at that position if the sample has the event, and 0 otherwise; no other cell is written. |
| Cosim.VectorsAndDots | py_scripts/cosim-heatmap.py:76-93 | Over the union of the two event sets, both vectors hold each sample's proportions, and the cross dot product is the shared-event sum, both along the index and as an order-free sum over the union of the two event sets, symmetric in the samples. |
| Cosim.DotIsOverlap | py_scripts/cosim-heatmap.py:93 | The dot product of two sample vectors is the sum, over the events both samples share, of the product of their proportions. |
| Cosim.DotNonNegative | py_scripts/cosim-heatmap.py:93 | `np.dot` of two vectors with no negative coordinate is not negative. |
| Cosim.SharedSumRemove | py_scripts/cosim-heatmap.py:93 | The shared-event sum over a set of events can start from any of its events. |
| Cosim.OverlapIsSharedSum | py_scripts/cosim-heatmap.py:78-93 | Along an index without repeats, the shared-event sum equals the order-free sum over the set of its events. |
| Cosim.IndexSharedSum | py_scripts/cosim-heatmap.py:77-93 | Any index without repeats that lists exactly a given set of events yields that set's shared-event sum. |
| Cosim.SharedSumSwap | py_scripts/cosim-heatmap.py:93 | The order-free shared-event sum is symmetric in the two samples. |
| Cosim.OverlapSwap | py_scripts/cosim-heatmap.py:93 | The shared-event sum is symmetric in the two samples. |
| Cosim.DisjointOverlapZero | py_scripts/cosim-heatmap.py:93 | Samples without a common event have dot product 0. |
| Cosim.SwappedSamplesSameDot | py_scripts/cosim-heatmap.py:77-93 | Two indexes without repeats that hold the same events, one built for (A, B) and one for the swapped pair (B, A), give the same dot product, whatever order `list(set)` puts them in. |
| Cosim.SwappedPairSameDot | py_scripts/cosim-heatmap.py:77-93 | The cross dot product that a comparison reports as a sum over the union of event sets is the same when the two samples are swapped. |
| Cosim.ComparePair | py_scripts/cosim-heatmap.py:54-93 | There is no value exactly when a sample has rows but no reads left. Otherwise, the index has the union of both samples' events without the unedited barcode. Both vectors have the index's length and hold the proportions at shared positions. The three dot products are the ones in the cosine, and the cross product is the shared-event sum, also as an order-free sum over the union of both samples' event sets, so the pair taken in the other order reports the same value (`SwappedPairSameDot`). |
| Cosim.CompareSamples | py_scripts/cosim-heatmap.py:50-93 | After cleaning both raw tables, the index has the cleaned events of either sample except the unedited barcode. When both samples have reads and neither has the unedited barcode, the comparison is defined. |
| Cosim.FillUpperTriangle | py_scripts/cosim-heatmap.py:39-94 | Starting from a zero matrix, the double loop writes the pair's value in each cell with `jj >= ii` and leaves the cells below the diagonal at 0. |
| Cosim.Symmetrize | py_scripts/cosim-heatmap.py:25-26 | An off-diagonal cell becomes `A[i][j] + A[j][i]`, and a diagonal cell keeps `A[i][i]`. |
| Cosim.SymmetrizeUpperTriangular | py_scripts/cosim-heatmap.py:96-97 | A matrix that is zero below the diagonal mirrors to a symmetric matrix that agrees with it on and above the diagonal. |
| Cosim.CosimMatrix | py_scripts/cosim-heatmap.py:39-97 | The final matrix is square and symmetric; each cell holds the value of its pair taken in the order `(min, max)`. |

## Left out

- Reading and writing files is left out: `pd.read_csv`, the hard-coded paths and the sample-name lists. A sample enters the model as a table of rows.
- The cosine is left out: `np.sqrt` and the division in it are floating point. The model stops at the three dot products. The matrix fill takes the per-pair value as a function parameter `cell(ii, jj)`.
- Cosim.Proportions: the NaN that pandas produces (0/0) when a non-empty table has no reads is modelled as no value. `Undefined` is what then reaches the comparison.
- The heatmap is left out (plotting only), as are `np.triu` for the mask and `plt.show`.
- The message printed by `countEditsbyType` for an unknown kind is left out (console output).
- The other scripts that use these helpers are not part of this model: `swarmplot.py`, `percentIndels.py` and `plotCDF.py`.
- Real numbers are exact here; floating-point rounding of proportions and dot products is not modelled.
- Python's `set` and `dict` iteration orders and pandas' order for equal counts are left unspecified. Every property is proved for any order.
