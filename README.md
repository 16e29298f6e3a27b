# Species extractor — a verified model

`scripts/extract_species.py` reads a table of papers and sends one text column of each row to the TaxoNERD taxon recogniser. Per row it keeps the spans labelled `TAXON`, strips them and removes duplicates. It writes two derived columns to every row: `extracted_species`, the entities joined by `"; "`, and `species_count`. It tallies the species over the whole table with a `Counter` and reports:

- the number of papers;
- the papers with at least one species;
- the number of distinct species;
- the five most mentioned species.

Finally it writes the annotated table, plus a summary table of all species by descending count. The summary path is derived from the output path.

This project models that core in Dafny:

- `optional.dfy`: `Option`, which stands for a NaN cell.
- `strings.dfy`: the Python string operations the script relies on:
  - `strip()` with Python's whitespace set;
  - `"; ".join`;
  - `split` on one character, as the inverse of the join;
  - `replace`, left to right and non-overlapping.
- `extractor.dfy`: `extract_species_from_text`.
  - The recogniser is the class `TaxonModel`. It holds the recognition function, plus a ghost count of the texts it was given.
  - The span loop is a method loop with its invariant.
  - `list(set(...))` is `Unique`.
- `tally.dfy`: `Counter`, modelled as its entries in insertion order. Also:
  - the fold of `all_species`;
  - the per-row figures the tally is compared with.
- `ranking.dfy`: `most_common()`, a stable sort by descending count (the documented `Counter` order); `most_common(n)` is its first `n` entries.
- `pipeline.dfy`: the table as a class `DataFrame` whose rows are updated in place.
  - The `iterrows` loop is a method.
  - `process_csv` is a method that returns an `Outcome` and a `Report`.
  - Also here: the output and summary paths, and the round trip from a species cell back to its list.

The recogniser's output, the input table and the optional output path are parameters. Nothing is read or written.

Points where the code behaves in ways a reader might not expect:

- **Summary path.** `replace` rewrites every `.csv` in the output path, not only a trailing extension (`SummaryPathSplits`). Without `.csv` the summary path is the output path, so the summary overwrites the annotated table (`SummaryPathCollides`).
- **Empty cells and `species_count == 0`.** A `TAXON` span made only of whitespace strips to `""`, and that entity is kept. When it is a row's only entity, the row has `species_count == 1` and an empty `extracted_species` cell. The cell is empty exactly for `[]` and `[""]` (`SpeciesCellEmpty`); `["Homo", ""]` gives `"Homo; "` with a count of 2.
- **Reading the cell back.** The cell, split on `;` and stripped, gives back the row's list, and so has `species_count` parts, when no entity is empty or holds a `;` (`ExtractedCellRoundTrip`). This condition is sufficient, not necessary.
- **Join order.** `list(set(...))` leaves the order to set iteration. No contract fixes it: contracts speak of contents and no-duplicates only.

## Model

| member | source | states |
|---|---|---|
| Strings.Strip | scripts/extract_species.py:45 | `str.strip()` as the slice between the first and the last non-space; specified by `StripSpec`, `StripIdempotent` and `StripLeadingSpace` |
| Strings.StripSpec | scripts/extract_species.py:45 | `text.strip()` is empty exactly when every character is whitespace; otherwise the result starts and ends with a non-space |
| Strings.StripIdempotent | scripts/extract_species.py:55 | stripping an already stripped span text changes nothing |
| Strings.StripLeadingSpace | scripts/extract_species.py:55 | a leading whitespace character does not change the result of `strip()` |
| Strings.Join | scripts/extract_species.py:98 | `sep.join(xs)`; `Split` is proved to invert it and `JoinLength` shows a join of two or more parts is never empty |
| Strings.JoinLength | scripts/extract_species.py:98 | joining two or more entities always writes a separator, so the result is never empty |
| Strings.Split | scripts/extract_species.py:98 | splitting on one character gives at least one part, no part holds the separator, and joining the parts with it gives back the string: split inverts the join |
| Strings.Replace | scripts/extract_species.py:137 | `s.replace(pat, rep)`, left to right and non-overlapping; specified by `ReplaceAbsent`, `ReplaceLonger`, `ReplaceUnchangedIff` and `Pipeline.SummaryPathSplits` |
| Strings.ReplaceAbsent | scripts/extract_species.py:137 | `replace` leaves a string without the pattern unchanged |
| Strings.ReplaceLonger | scripts/extract_species.py:137 | when the replacement is longer than the pattern, any occurrence makes the result strictly longer |
| Strings.ReplaceUnchangedIff | scripts/extract_species.py:137 | with a longer replacement, the result equals the input exactly when the pattern does not occur |
| Extractor.TaxonModel.constructor | scripts/extract_species.py:26 | the loaded model recognises with the given function and has been given no text yet |
| Extractor.TaxonModel.Process | scripts/extract_species.py:49 | `nlp(text)` returns the recogniser's spans for the text and counts one call |
| Extractor.TaxonTexts | scripts/extract_species.py:52-55 | the loop over `doc.ents` as a function of the spans; `TaxonTextsMembers` states exactly which strings it collects |
| Extractor.TaxonTextsMembers | scripts/extract_species.py:52-55 | a string is among the collected entities exactly when some span labelled `TAXON` strips to it; spans with other labels contribute nothing |
| Extractor.Unique | scripts/extract_species.py:58 | `list(set(xs))` has no duplicates and exactly the members of `xs` |
| Extractor.ExtractSpeciesFromText | scripts/extract_species.py:34-58 | a NaN or whitespace-only cell gives `[]` without calling the recogniser; any other text calls it once and gives a duplicate-free list whose members are exactly the stripped texts of the `TAXON` spans |
| Extractor.SpeciesAreStripped | scripts/extract_species.py:55-58 | every entity returned is already stripped |
| Tally.Add | scripts/extract_species.py:109 | one more occurrence counted by the `Counter`; specified by `AddSpec` |
| Tally.CounterOf | scripts/extract_species.py:109 | `Counter(all_species)`; specified by `CounterOfSpec` and `CounterOfOrder` |
| Tally.CountAbsent | scripts/extract_species.py:109 | a `Counter` gives 0 for a species it never saw |
| Tally.AddSpec | scripts/extract_species.py:109 | counting one more `x` keeps every key once with a positive count, raises the count of `x` by one and no other, adds one to the total, and appends `x` to the keys exactly when it is new |
| Tally.CounterOfSpec | scripts/extract_species.py:109 | `Counter(all_species)` counts every string as often as it occurs, its counts sum to the length of `all_species`, and its keys are exactly the strings of `all_species`, each once |
| Tally.CounterOfOrder | scripts/extract_species.py:109 | the keys of the `Counter` come in the order in which they first occur in `all_species` |
| Tally.DistinctKeys | scripts/extract_species.py:110 | `total_unique_species` is the number of distinct strings in `all_species` |
| Tally.TallyCountsRows | scripts/extract_species.py:95-109 | when no row lists a species twice, the tally of each species is the number of rows whose list contains it |
| Tally.TallyTotal | scripts/extract_species.py:99-109 | the tally's counts add up to the sum of the row counts |
| Tally.RowsWithSpeciesBound | scripts/extract_species.py:111 | at most every row has a species |
| Tally.TallyEmptyIff | scripts/extract_species.py:109-110 | the tally is empty exactly when no row has a species |
| Ranking.MostCommon | scripts/extract_species.py:135 | `most_common()`; specified by `MostCommonPermutation`, `MostCommonSorted` and `MostCommonTies` |
| Ranking.MostCommonN | scripts/extract_species.py:120 | `most_common(5)`; specified by `TopEntries` |
| Ranking.InsertSplit | scripts/extract_species.py:135 | an entry goes after every entry with a greater count and before the first with a count not greater, so equal counts keep their order |
| Ranking.MostCommonPermutation | scripts/extract_species.py:135 | `most_common()` holds the `Counter`'s entries, each as often |
| Ranking.MostCommonSorted | scripts/extract_species.py:135 | `most_common()` is in non-increasing count order |
| Ranking.MostCommonTies | scripts/extract_species.py:135 | among equal counts, `most_common()` keeps the `Counter`'s order |
| Ranking.RankingOfTally | scripts/extract_species.py:109-135 | the ranking of the corpus tally is non-increasing, and of two species with equal counts the one met first in `all_species` comes first |
| Ranking.TopEntries | scripts/extract_species.py:120 | `most_common(5)` has `min(5, n)` entries, is a prefix of the full ranking, and no entry it leaves out has a greater count than one it keeps |
| Ranking.SummaryRows | scripts/extract_species.py:133-136 | the summary table has one row per distinct species and no other, no species twice, each with its tally count |
| Ranking.TallyExample | scripts/extract_species.py:109-121 | rows naming {A, B}, {A}, nothing and {B, C} tally A:2, B:2, C:1, and the top two are A then B |
| Pipeline.WithColumn | scripts/extract_species.py:90-91 | assigning a column keeps the existing columns and adds the new name |
| Pipeline.DataFrame.constructor | scripts/extract_species.py:72 | the table as read: its columns and rows, every row with a cell for every column |
| Pipeline.DataFrame.AssignColumn | scripts/extract_species.py:90-91 | `df[name] = v` adds `name` to the columns if new and sets it to `v` in every row, the table staying rectangular |
| Pipeline.DataFrame.SetAt | scripts/extract_species.py:98-99 | `df.at[idx, col] = v` changes that one cell and nothing else |
| Pipeline.SpeciesCell | scripts/extract_species.py:98 | `'; '.join(species) if species else ''`; specified by `SpeciesCellEmpty`, `SpeciesCellRoundTrip` and `ExtractedCellRoundTrip` |
| Pipeline.SpeciesCellEmpty | scripts/extract_species.py:98 | the `extracted_species` cell is empty exactly for the empty list and for the single entity `""` |
| Pipeline.SpeciesCellRoundTrip | scripts/extract_species.py:98 | a cell written from non-empty, stripped entities without `;` reads back, by splitting on `;` and stripping, as the same list |
| Pipeline.ExtractedCellRoundTrip | scripts/extract_species.py:95-99 | for a row's extracted list in which no entity is empty or holds a `;`, the cell reads back as the list, so its number of parts is `species_count` |
| Pipeline.PapersWithSpecies | scripts/extract_species.py:111 | `len(df[df['species_count'] > 0])`; specified by `PapersWithSpeciesCounted` |
| Pipeline.PapersWithSpeciesCounted | scripts/extract_species.py:111 | `papers_with_species` counts the rows whose list is non-empty and never exceeds the row count |
| Pipeline.AnnotateRow | scripts/extract_species.py:94-99 | one loop pass: the row's text gives a species list for that cell, and only that row changes, getting the joined list and its length |
| Pipeline.ExtractAllRows | scripts/extract_species.py:93-100 | the loop either stops at the first row whose text cell is a number (where `strip()` raises), with every row before it annotated from its own species list and the rest unchanged, or annotates every row, one species list per row, with `all_species` the lists concatenated in row order |
| Pipeline.ExtractedIsAnnotated | scripts/extract_species.py:90-99 | the defaults written before the loop are overwritten, so each annotated row keeps its own cells and gains the two derived ones |
| Pipeline.OutputPath | scripts/extract_species.py:124-125 | the given output path, or `data/output/results_with_species.csv`; `DefaultSummaryPath` follows the default through to the summary path |
| Pipeline.SummaryPath | scripts/extract_species.py:137 | `output_file.replace('.csv', '_species_summary.csv')`; specified by `SummaryPathSplits`, `SummaryPathCollides`, `SummaryPathOfCsv` and `DefaultSummaryPath` |
| Pipeline.SummaryPathSplits | scripts/extract_species.py:137 | every `.csv` in the output path is replaced, not only a trailing one |
| Pipeline.SummaryPathCollides | scripts/extract_species.py:137 | the summary path equals the output path exactly when the output path contains no `.csv` |
| Pipeline.SummaryPathOfCsv | scripts/extract_species.py:137 | a path whose only `.csv` ends it gets `_species_summary.csv` in place of the extension |
| Pipeline.DefaultSummaryPath | scripts/extract_species.py:124-137 | without an output path, the summary goes to `data/output/results_with_species_species_summary.csv` |
| Pipeline.ProcessCsv | scripts/extract_species.py:60-137 | a missing text column stops the run with the available columns and no change; otherwise both derived columns are added; a numeric text cell stops at the first such row, the rows before it annotated and the rest holding the defaults; else every row is annotated from its own species list, all other cells stay as they were, and the report is that of the annotated rows |
| Pipeline.ReportOf | scripts/extract_species.py:109-137 | the figures, the top five, the output path and the summary a completed run produces; specified by `ReportFacts` |
| Pipeline.ReportFacts | scripts/extract_species.py:109-137 | for a completed run: papers with species are the rows with a non-empty list, at most all rows; unique species are the distinct names; the console lists the first five of the ranking; a summary exists exactly when some row has a species, at the derived path, with one row for each species named in some row and no other, no species twice, non-increasing, each count the number of rows naming it; the tally sums to the `species_count` column |

## Left out

- Loading the TaxoNERD model (`setup_taxonerd`, lines 18-32) and its inference: the recogniser is a function given to `TaxonModel`. The load failure and the `sys.exit` that follows are not modelled.
- `pd.read_csv` and its error path (lines 71-76): the table is given as a `DataFrame` object.
- Writing files: `mkdir`, `df.to_csv` and the summary's `to_csv` (lines 127-128, 138) are left out. The model returns the rows, the output path, the summary path and the summary table that would be written.
- Console output and the every-ten-rows progress line (lines 70, 73, 80-81, 88, 103-106, 113-121, 129, 139): the printed figures and the top five are fields of `Report`; the text itself is left out.
- `main`, argparse and the input-file existence check (lines 141-160): this is command-line glue.
- The order of `list(set(entities))` (line 58): Python does not define it. `Unique` picks one order, and no contract depends on it.
- Cells other than text, NaN and integers: a non-NaN float cell makes `strip()` raise like an integer cell does, and is not a separate case. `pd.isna` is modelled only as the `Missing` cell.
- Pipeline.ExtractAllRows: the row index is taken as the row's position, because `read_csv` gives a default range index. Custom index labels for `df.at` are not modelled.
- `str.strip` uses a fixed set of Unicode whitespace code points (Python's `str.isspace`). There is no normalisation.
- `info/setup.py` and `info/run_example.py`: environment setup and a subprocess launch of the script, with no logic of their own.
