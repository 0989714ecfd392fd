# long_to_wide: a Dafny model

The tool turns the long `visualization.csv` table of a variant-calling pipeline into a wide
table. The long table has one row per (sample, variant) call with its allele frequency `AF`.
The wide table has one row per variant, keyed `POSITION:NT_CHANGE`, and one `AF` column per
sample. The columns are named and ordered by a headers table of `SAMPLE_ID` / `NEW_HEADER`
rows. `MAX_AF` and `COUNT_AF` summarise each row. The per-variant metadata is joined on: the
nucleotide and amino-acid change, position, protein, mutation type and mature-peptide
annotation.

This project models the core of that program: `long_to_wide`, `extract_snv_metadata`,
`extract_mut_type` (both the loop version in `main.py` and the group-by version in
`extractors.py`) and `extract_mat_peptide`. The pandas operations they use become explicit
functions on sequences of records:

- `drop_duplicates` / `unique` keep the first occurrence of each row (`Seqs.Distinct`).
- Boolean masks become `Seqs.Filter`.
- `merge(how='left')` and `merge(how='outer')` become `Joins.LeftJoin` and `Joins.OuterJoin`.
  Every matching pair gives a row, an unmatched left row gets an empty right side, and in the
  outer join an unmatched right row gets an empty left side.
- `value_counts` becomes `Metadata.Freq`.
- `str.replace` of a literal becomes `Text.RemoveAll`.
- `str.split(r"[:;] ", expand=True)` becomes `Text.SplitAnnotation` plus padding to the widest row.
- `pivot` becomes `Wide.Pivot`. It fails on a repeated (index, column) cell, and its index and
  its columns come out sorted.
- `reindex(columns=...)` becomes `Wide.Reindex`. A column missing from the pivot is all missing.
- `max(axis=1, skipna=True)` and `count(axis=1)` become `Wide.MaxAf` and `Wide.CountAf`, over
  `Option<real>`; `None` is NaN.

The exceptions the code can raise on data are modelled as `Variants.Error` values:

- `DuplicatePivotEntries` for `pivot`;
- `MatPeptideColumnsMismatch(width)` when the split annotation cannot be assigned to three columns.

The modules follow the program's structure:

- `Variants` (`variants.dfy`): records, the variant key, and the mutation-type collapse rule
  and table.
- `Extractors` (`extractors.dfy`): the group-by `extract_mut_type`.
- `Metadata` (`metadata.dfy`): the loop-based `extract_mut_type` and `extract_snv_metadata`.
- `Peptides` (`peptides.dfy`): `extract_mat_peptide`.
- `Wide` (`wide.dfy`): `long_to_wide`.
- Shared building blocks: `Wrappers`, `Seqs`, `Text` (string order, sorting, decimal
  rendering, literal replacement, the annotation split) and `Joins` (the two merges).

The loop in `extract_mut_type` fills the `MUT_TYPE` column of a frame in place, cell by cell.
`Metadata.FillMutTypes` models it as a `while` loop over an `array`. `Metadata.ExtractMutType`
and `Metadata.ExtractSnvMetadata`, and `Wide.LongToWide`, are methods proved against the ghost
specifications `Variants.IsMutTypeTable`, `Metadata.IsMetadataFor` and `Wide.IsOutputFor`.

## Behaviour worth noting

- **How annotations are split.**
  - `extract_mat_peptide` splits each mature-peptide annotation at every `:␠` or `;␠`, not
    only at the first.
  - It then assigns the pieces of all rows at once to three columns. This fails only when the
    widest row's piece count is not three.
  - A row with fewer pieces is padded with missing values. A row with more than three pieces
    makes the widest row wider than three, so the step fails.
  - `Peptides.ExtractMatPeptideFails` states the exact failure condition.
- **Missing spaces.** An annotation such as `ORF1a:T100I; c.300A>G` has no space after its
  colon. It splits into two pieces (`Peptides.TwoPieceAnnotation`), so a table whose
  annotations all look like it fails.
- **Rows per variant.** The metadata is not one row per variant key.
  - It holds every distinct (key, nucleotide change, amino-acid change, position, protein) row
    once.
  - The peptide left merge repeats a row once per peptide row of its key. Two different
    annotations can split into the same three columns (`A: x; y` and `A; x: y`), so even
    equal rows can repeat.
  - `Metadata.IsMetadataFor` states exactly how often each row occurs. `Metadata.MetadataKeys`
    states that the set of keys is exactly the variants' keys.
- **Mapping rows without a display name.** The code does not filter them; see "## Left out".

## Model

| member | source | states |
|---|---|---|
| Variants.Key | main.py:75 | the `POSITION:NT_CHANGE` key; `Variants.KeyRoundTrip` and `KeyInjective` state it |
| Variants.KeyRoundTrip | main.py:75 | the `POSITION:NT_CHANGE` key of a position and a nucleotide change reads back as exactly that position and change |
| Variants.KeyInjective | main.py:75 | two calls get the same key only when their position and nucleotide change both agree |
| Variants.Collapse | extractors.py:9 | the collapsed label; `Variants.CollapseOrderIndependent`, `CollapseSingle`, `CollapseExample` and `SortThenUniqueIsCanonical` state it |
| Variants.CanonicalLabelsUnique | extractors.py:9 | `sorted(set(x))` is the only sorted, duplicate-free list of the labels of `x` |
| Variants.CollapseOrderIndependent | extractors.py:9 | the collapsed mutation type depends only on the set of labels, not on their order or repetition |
| Variants.CollapseSingle | extractors.py:9 | a variant whose calls all carry one label keeps that label unchanged |
| Variants.CollapseExample | extractors.py:9 | labels `Nonsense, Missense, Nonsense` collapse to `Missense or Nonsense` |
| Variants.SortThenUniqueIsCanonical | main.py:20-21 | `sort_values().unique()` on the labels gives the same list as `sorted(set(...))` on any listing of the same labels |
| Variants.MutTypeTablesAgree | extractors.py:1-12 | two mutation-type tables for the same calls have the same rows |
| Variants.MutTypeTableOrderIndependent | main.py:5-28 | a mutation-type table for some calls is one for any reordering or repetition of those calls |
| Variants.MutTypeTableUnambiguous | main.py:24-25 | a variant all of whose calls carry one label appears with exactly that label |
| Variants.MutTypeTableSize | extractors.py:6-10 | the table has exactly one row per distinct variant key |
| Extractors.ExtractMutType | extractors.py:1-12 | the group-by version; `Extractors.ExtractMutTypeTable`, `ExtractMutTypeKeys` and `ExtractMutTypeOrderIndependent` state what it computes |
| Extractors.ExtractMutTypeKeys | extractors.py:8 | the group-by output keys are the distinct input keys, in ascending string order, without repeats |
| Extractors.ExtractMutTypeTable | extractors.py:1-12 | the group-by output is a mutation-type table for its input: one row per key, with the collapsed labels of that key |
| Extractors.ExtractMutTypeSize | extractors.py:6-10 | one output row per distinct key |
| Extractors.ExtractMutTypeUnambiguous | extractors.py:9 | a key with a single label keeps it |
| Extractors.ExtractMutTypeLabels | extractors.py:9 | every output label is the ` or `-join of a sorted, duplicate-free list of labels that occur for that key |
| Extractors.ExtractMutTypeOrderIndependent | extractors.py:3-9 | the output depends only on the set of (key, label) pairs |
| Metadata.Freq | main.py:8-9 | `value_counts` of a key; `Metadata.FreqCountsLabels` states it |
| Metadata.FreqCountsLabels | main.py:8-9 | the `value_counts` frequency of a key in the deduplicated table is its number of distinct labels |
| Metadata.AmbiguousKeys | main.py:10-14 | the ambiguous keys are exactly the keys of frequency above one |
| Metadata.JoinedLabels | main.py:20-21 | the label the loop writes; `Metadata.FilledLabel` states it |
| Metadata.FilledLabel | main.py:19-22 | the label written for an ambiguous key is the collapse of all of that key's labels |
| Metadata.UnambiguousKeysDistinct | main.py:24-25 | among frequency-one rows each key occurs once and its label is its only label |
| Metadata.AssembledTable | main.py:27 | the unambiguous rows followed by the filled ambiguous rows form a mutation-type table |
| Metadata.AssembledResult | main.py:7-27 | that concatenation is a mutation-type table with the same rows as the group-by version |
| Metadata.FillMutTypes | main.py:18-22 | after the loop, cell `i` holds the collapsed labels of ambiguous key `i` |
| Metadata.ExtractMutType | main.py:5-28 | the loop version returns a mutation-type table for its input with the same rows as the group-by version |
| Metadata.BaseKeyObserved | main.py:42-53 | every metadata base row's key is a key of the mutation-type input |
| Metadata.ObservedKeyHasBase | main.py:42-53 | every key of the mutation-type input has a base row |
| Metadata.MutTypeJoinRow | main.py:54 | every row of the outer merge with the mutation types has both sides, and is its base row with the collapsed type of its key |
| Metadata.MergedNoDups | main.py:50-54 | the outer merge of the de-duplicated base rows with the mutation-type table repeats no row: every type key has a base row and no key has two types |
| Metadata.MutTypeMetadata | main.py:42-54 | after the mutation-type merge, the rows are exactly the distinct base rows, each once, with its collapsed mutation type and no peptide |
| Metadata.PeptideJoinSound | main.py:59 | every row of the peptide left merge is a base row with its type, plus a peptide of its key or none when its key has no peptide |
| Metadata.PeptideJoinMatched | main.py:59 | every base row appears once with each peptide row of its key |
| Metadata.PeptideJoinUnmatched | main.py:59 | a base row whose key has no peptide row appears without peptide columns filled |
| Metadata.PairingsCount | main.py:59 | a metadata row with peptide rows of its key gets, for each peptide `p`, as many copies with `p` as there are equal peptide rows |
| Metadata.BlockCount | main.py:59 | the rows the left merge makes from one metadata row occur `JoinCount` times each, and no other row occurs |
| Metadata.PeptideJoinCount | main.py:59 | the left merge of duplicate-free metadata without peptides makes each row exactly `JoinCount` times from its one metadata row |
| Metadata.PeptideJoinCounts | main.py:59 | after the peptide merge every row occurs exactly `JoinCount` times |
| Metadata.PeptideMetadata | main.py:57-59 | the left merge turns metadata without peptides into metadata with the peptide table, with each row's count |
| Metadata.ExtractSnvMetadata | main.py:41-61 | fails exactly when the peptide step fails, with its error; otherwise returns the metadata of the input for the peptide outcome: the distinct base rows with their types, each once, or each once per peptide row of its key |
| Metadata.MetadataKeepsBase | main.py:50-59 | every distinct base row survives into the metadata with its collapsed mutation type |
| Metadata.MetaRowKeyFromInput | main.py:41-61 | every metadata row's key comes from the input |
| Metadata.InputKeyHasMetaRow | main.py:41-61 | every input key has a metadata row |
| Metadata.MetadataKeys | main.py:41-61 | the metadata's set of keys is exactly the input's set of keys |
| Metadata.MetadataNoDups | main.py:50-59 | without a peptide table, or with one that repeats no row, the metadata repeats no row |
| Peptides.ExtractMatPeptide | main.py:30-38 | the peptide step; `Peptides.ExtractMatPeptideAbsent`, `ExtractMatPeptideFails`, `ExtractMatPeptideErrorWidth`, `ExtractMatPeptideRows` and `ExtractMatPeptideSize` state its outcomes |
| Peptides.ParsePeptide | main.py:36 | the three columns of one annotation; `Peptides.ParsePeptideFormat` and `TwoPieceAnnotation` state them |
| Peptides.Width | main.py:36 | every annotation splits into at least one piece |
| Peptides.ParsePeptideFormat | main.py:36 | `PEPTIDE: AA; NT` with separator-free fields splits into three pieces, read back as exactly those fields |
| Peptides.TwoPieceAnnotation | main.py:36 | an annotation with only one separator splits into two pieces; the nucleotide column is then missing |
| Peptides.Widest | main.py:36 | the number of split columns is the largest piece count among the annotations |
| Peptides.ExtractMatPeptideAbsent | main.py:31-33 | the step returns "no table" exactly when every annotation is `-` |
| Peptides.ExtractMatPeptideFails | main.py:35-36 | the step fails exactly when some annotation is present and either some annotation makes more than three pieces or none makes three |
| Peptides.ExtractMatPeptideErrorWidth | main.py:36 | a failure reports the widest piece count, which some annotation reaches |
| Peptides.ExtractMatPeptideRows | main.py:35-37 | on success every row parses an annotated pair, every annotated pair has its row, and no annotation makes more than three pieces |
| Peptides.ExtractMatPeptideSize | main.py:35 | on success there is one row per distinct annotated (key, annotation) pair |
| Peptides.AnnotatedPairs | main.py:31-35 | the deduplicated pairs are exactly the annotated input pairs |
| Seqs.Distinct | main.py:50 | `drop_duplicates`: no repeats, the same elements, never longer |
| Seqs.Filter | main.py:71 | a mask keeps exactly the input elements that pass it, keeps distinct inputs distinct and never adds rows |
| Text.LessEqIsTotalOrder | extractors.py:9 | the string comparison used by sorting is a total order |
| Text.SortSorts | extractors.py:9 | `sorted` returns an ascending list |
| Text.SortPermutes | extractors.py:9 | `sorted` returns a permutation of its input |
| Text.DistinctKeepsSorted | main.py:20 | `unique` of a sorted list is still sorted |
| Text.Join | extractors.py:9 | `' or '.join`; `Variants.CollapseExample` shows it on two labels |
| Text.SortedUnique | extractors.py:9 | two sorted, duplicate-free lists of the same elements are equal |
| Text.RemoveAll | main.py:70 | literal `str.replace` with the empty string; `Text.RemoveAllAbsent`, `RemoveAllSuffix`, `Wide.SampleSuffixStripped` and `SynSuffixStripped` state it |
| Text.RemoveAllAbsent | main.py:70 | replacing a substring that does not occur changes nothing |
| Text.RemoveAllSuffix | main.py:74 | removing a self-overlap-free pattern that occurs once, as a suffix, leaves exactly the prefix |
| Text.NatToDecimalRoundTrip | main.py:75 | the decimal digits `astype(str)` writes for a natural number read back as that number |
| Text.IntToDecimalRoundTrip | main.py:75 | the decimal text of any integer position parses back to the position |
| Text.SplitAnnotation | main.py:36 | the split has at least one piece, starts with a prefix of the text, and no piece holds a separator |
| Text.SplitPlain | main.py:36 | a text without a separator is one piece |
| Text.SplitAfter | main.py:36 | a separator-free field then a separator splits as that field followed by the split of the rest |
| Joins.LeftJoin | main.py:59 | every row is a left row paired with a right row of its key, or with nothing when no right row has its key; every such pairing occurs |
| Joins.OuterJoin | main.py:54 | the left join's rows plus one row with an empty left side for each right row whose key no left row has |
| Joins.LeftJoinKeepsLeft | main.py:59 | every left row appears in the left merge |
| Joins.LeftJoinOnePerLeft | main.py:59 | when the right keys are unique, the left merge has exactly one row per left row, in the left order |
| Joins.OuterJoinKeepsBoth | main.py:91 | every row of both sides appears in the outer merge |
| Joins.OuterJoinKeysSound | main.py:91 | every outer-merge key comes from one of the sides |
| Joins.OuterJoinKeys | main.py:91 | the outer merge's set of keys is the union of the two sides' keys |
| Joins.MatchingCount | main.py:59 | a merge sees each right row of a key as often as the right side has it, and no row of another key |
| Joins.RightOnlyEmpty | main.py:54 | when every right key is also a left key, no right row is left unmatched |
| Wide.CleanSample | main.py:70 | the sample-id cleaning; `Wide.SampleSuffixStripped` states it |
| Wide.MergeHeaders | main.py:72 | the header merge; `Wide.MergeHeadersSound` and `MergeHeadersComplete` state it |
| Wide.Prepare | main.py:70-75 | the prepared long table; `Wide.PrepareRows` states it |
| Wide.SampleSuffixStripped | main.py:70 | a sample id that ends in one `.fastq.gz` gets that suffix removed and nothing else |
| Wide.SynSuffixStripped | main.py:74 | a mutation type ending in one ` SNV` gets that suffix removed and nothing else |
| Wide.HeaderRowsSound | main.py:72 | a record's merged rows each pair it with a mapping row of its sample |
| Wide.HeaderRowsComplete | main.py:72 | a record is paired with every mapping row of its sample |
| Wide.MergeHeadersSound | main.py:71-72 | every merged row pairs a kept record with a mapping row of its sample |
| Wide.MergeHeadersComplete | main.py:71-72 | every record with a matching mapping row is paired with each such row |
| Wide.PrepareRows | main.py:70-75 | the prepared rows are exactly the cleaned records whose sample is mapped, each paired with each of its mapping rows |
| Wide.Pivot | main.py:77 | the pivot; `Wide.RepeatedCallFails`, `LookupUnique` and `ReindexPivot` state it |
| Wide.Reindex | main.py:80 | the column reordering; `Wide.ReindexPivot`, `ColumnLookup` and `EmptyHeaderColumn` state it |
| Wide.RepeatedCallFails | main.py:77 | two different calls of one variant in one mapped sample make a duplicate pivot cell |
| Wide.Lookup | main.py:77 | a cell with no call is missing |
| Wide.LookupUnique | main.py:77 | without duplicate cells, each call's `AF` is the value in its cell |
| Wide.ColumnLookup | main.py:80 | reading any column `c` of a pivot row gives the `AF` of the call in cell (key, `c`), which is missing when there is no such call, including when `c` is not a pivot column |
| Wide.ReindexPivot | main.py:77-80 | pivoting then reindexing gives one row per sorted distinct key, whose cells are the lookups under the headers' column order |
| Wide.MaxAf | main.py:82 | the row maximum is missing exactly when every cell is; otherwise it is a present cell's value, at least every present value |
| Wide.CountAf | main.py:83 | the count is at most the row width; it is zero exactly when all cells are missing and the width exactly when none is |
| Wide.CountAfMissing | main.py:83 | the count plus the number of missing cells is the row width |
| Wide.WithStats | main.py:82-85 | a wide row with `MAX_AF` and `COUNT_AF` added; `Wide.MaxAf`, `CountAf` and `CountAfMissing` state them |
| Wide.AfSummaryExample | main.py:82-83 | cells 0.1, missing, 0.5 give `MAX_AF` 0.5 and `COUNT_AF` 2; an all-missing row gives a missing `MAX_AF` and `COUNT_AF` 0 |
| Wide.WideRowsFor | main.py:77-85 | the wide rows are exactly one per key of the prepared rows, with no key twice, each with its lookups, maximum and count |
| Wide.MetadataRowKeys | main.py:88 | the metadata has exactly the keys of the prepared rows |
| Wide.FinalJoinRow | main.py:91 | when both sides have the same keys, every final merge row has a wide row and a metadata row of its key |
| Wide.MetaOfJoinCount | main.py:91 | merging wide rows of distinct keys with the metadata puts each metadata row of their keys on the metadata side as often as the metadata has it |
| Wide.FinalJoinMetaCount | main.py:91 | when both sides have the same keys, the metadata side of the final merge is the metadata row for row, as a multiset |
| Wide.FinalJoinKeys | main.py:91 | the final merge has exactly the wide table's keys |
| Wide.MetadataSameRows | main.py:88-91 | a table with the metadata's rows, each as often, is metadata of the same input |
| Wide.JoinedOutput | main.py:88-91 | the outer merge of the wide rows with the metadata satisfies the output description |
| Wide.OutputAssembled | main.py:70-91 | after the pivot succeeds, the assembled output is the output for the input and headers |
| Wide.EmptyHeaderColumn | main.py:80 | a header that no call maps to still gets its column, in its place, and it is missing in every row |
| Wide.LongToWide | main.py:65-91 | fails exactly on a duplicate pivot cell (`DuplicatePivotEntries`) or a failed peptide split (its error); otherwise the columns are the headers' names in order, the output's keys are exactly the prepared keys, every row pairs the wide row of its key with a metadata row of its key, and the metadata sides, counted with repeats, are the metadata of the prepared rows |

## Left out

- File input and output are not modelled. This covers reading the two CSV files
  (main.py:66, main.py:68), creating the output directory and its `ValueError`
  (main.py:94-98), and writing the Excel file (main.py:99). `Wide.LongToWide` takes the
  parsed tables and returns the table it would write.
- The command line (main.py:101-119) is not modelled: argument parsing and the progress messages.
- The `astype(int)` coercion of `Position` (main.py:67) is not modelled. Positions are already
  integers in the model, so a non-integral or missing position is not represented.
- Floating point is not modelled. `AF` is a `real`, and NaN is modelled only as a missing `AF`.
  Every other field is never missing: `Sample`, `NucCorrect`, `AminoCorrect`, `Protein`,
  `Syn`, `MatPeptide`, `SAMPLE_ID` and `NEW_HEADER`. A NaN `NucCorrect` would give a NaN key,
  and NaN keys and labels are not represented.
- Mapping rows with no display name are not filtered by the code and are not modelled as
  missing. A repeated display name gives a repeated output column, as `reindex` would ask for.
- Row order is not stated for `drop_duplicates`, `concat` and `merge` results except where a
  lemma names it. pandas sorts the keys of an outer merge; the model keeps the left rows'
  order. Properties of merged tables are stated on their rows with their counts, and on their
  keys.
- Column-name collisions are not modelled. The model keeps the sample columns, the two
  summaries and the metadata fields apart, so `Wide.LongToWide` states `columns` as the
  headers' names even where the program's columns differ:
  - a display name `MAX_AF` or `COUNT_AF` is overwritten by the summary (main.py:84-85);
  - a display name equal to a metadata column (`POSITION`, `PROTEIN`, `MUT_TYPE`,
    `NT_CHANGE`, `AA_CHANGE`, `MAT_PEPTIDE`, `MAT_PEP_AA_CHANGE`, `MAT_PEP_NT_CHANGE`) gets a
    `_x` / `_y` suffix in the final merge (main.py:91);
  - a display name `POSITION:NT_CHANGE` makes the final merge's key ambiguous.
- Metadata.ExtractMutType: states the rows of the result as a set. It does not state their
  order: the unambiguous rows in table order, then the ambiguous keys in first-appearance order.
- Joins.OuterJoin: does not state the row order of pandas' outer merge.
- Wide.LongToWide: does not state the row order of the final outer merge.
- Wide.RepeatedCallFails: requires the two calls to give different prepared rows. Two
  identical records at different positions also make a duplicate cell
  (`Wide.HasDuplicateCell` covers it), but the lemma does not state that case.
- The bare expression statement `unambig_mut` (main.py:26) has no effect and has no counterpart.
- `str.replace` is modelled as literal replacement, as in pandas 2. Under pandas 1.x's
  regular-expression default, the `.` characters of `.fastq.gz` would match any character.
- The split regular expression `[:;] ` is modelled by its two literal separators.
- Index objects, `reset_index`, column renames and column order of the metadata frame are not
  modelled. Each row is a record with named fields, and the key plays the index's role.
- The in-place assignment of the split columns into the peptide frame (main.py:36-37) is
  modelled on values. Only the `MUT_TYPE` fill loop keeps an array.
