/**
 * `process_csv`: annotates every row of the table with its species, tallies
 * the species over the corpus, and derives the summary figures, the ranking
 * and the two output paths.
 */
module Pipeline {
  import opened Optional
  import opened Strings
  import opened Extractor
  import opened Tally
  import opened Ranking

  /** A table cell as pandas reads it: NaN, a string, or an integer. */
  datatype Value = Missing | Str(s: string) | Int(n: int)

  /** One row of the table: column name to cell. */
  type Row = map<string, Value>

  const ExtractedColumn: string := "extracted_species"
  const CountColumn: string := "species_count"
  const Separator: string := "; "
  const DefaultOutput: string := "data/output/results_with_species.csv"
  const CsvExtension: string := ".csv"
  const SummarySuffix: string := "_species_summary.csv"
  /** How many species the console report lists. */
  const ConsoleTop: nat := 5

  /** The column order after `df[name] = ...`: a new column goes last, an existing one keeps its place. */
  function WithColumn(columns: seq<string>, name: string): (r: seq<string>)
    ensures forall c :: c in r <==> c in columns || c == name
  {
    if name in columns then columns else columns + [name]
  }

  /** The column names as a set. */
  function ColumnSet(columns: seq<string>): (r: set<string>)
    ensures forall c :: c in r <==> c in columns
  {
    set c | c in columns
  }

  /** The table read from the input CSV, updated in place. */
  class DataFrame {
    var columns: seq<string>
    var rows: seq<Row>

    /** Every row has a cell for every column and for nothing else. */
    ghost predicate Valid()
      reads this
    {
      forall i :: 0 <= i < |rows| ==> rows[i].Keys == ColumnSet(columns)
    }

    constructor (columns: seq<string>, rows: seq<Row>)
      requires forall i :: 0 <= i < |rows| ==> rows[i].Keys == ColumnSet(columns)
      ensures Valid() && this.columns == columns && this.rows == rows
    {
      this.columns := columns;
      this.rows := rows;
    }

    /** `df[name] = v`: every row gets `v` in column `name`, which is added if new. */
    method AssignColumn(name: string, v: Value)
      requires Valid()
      modifies this
      ensures Valid()
      ensures columns == WithColumn(old(columns), name)
      ensures |rows| == |old(rows)| && forall i :: 0 <= i < |rows| ==> rows[i] == old(rows)[i][name := v]
    {
      columns := WithColumn(columns, name);
      var before := rows;
      rows := seq(|before|, i requires 0 <= i < |before| => before[i][name := v]);
    }

    /** `df.at[idx, column] = v` for an existing row and column. */
    method SetAt(idx: nat, column: string, v: Value)
      requires Valid() && idx < |rows| && column in columns
      modifies this
      ensures Valid() && columns == old(columns)
      ensures rows == old(rows)[idx := old(rows)[idx][column := v]]
    {
      rows := rows[idx := rows[idx][column := v]];
    }
  }

  /** The text cell as `extract_species_from_text` receives it; NaN is `None`. */
  function CellText(v: Value): Option<string>
    requires !v.Int?
  {
    if v.Missing? then None else Some(v.s)
  }

  /** The `extracted_species` cell: `'; '.join(species) if species else ''`. */
  function SpeciesCell(species: seq<string>): string {
    if species == [] then "" else Join(Separator, species)
  }

  /**
   * The species cell is empty exactly for the empty list and for the list
   * whose only entity stripped to the empty string; so a `species_count` of
   * 0 always goes with an empty cell, and the converse fails only when the
   * recognizer reported a TAXON span made of whitespace.
   */
  lemma SpeciesCellEmpty(species: seq<string>)
    ensures SpeciesCell(species) == "" <==> species == [] || species == [""]
  {
    if |species| >= 2 {
      JoinLength(Separator, species);
    }
  }

  /** Reading a species cell back: its `;`-separated parts, stripped, empty ones dropped. */
  function ParseSpeciesCell(cell: string): seq<string> {
    KeepStripped(Split(cell, ';'))
  }

  function KeepStripped(parts: seq<string>): seq<string> {
    if parts == [] then []
    else (if Strip(parts[0]) == [] then [] else [Strip(parts[0])]) + KeepStripped(parts[1..])
  }

  /** Each string with a space put in front. */
  function SpacePrefixed(xs: seq<string>): (r: seq<string>)
    ensures |r| == |xs| && forall i :: 0 <= i < |xs| ==> r[i] == " " + xs[i]
  {
    if xs == [] then [] else [" " + xs[0]] + SpacePrefixed(xs[1..])
  }

  lemma {:induction false} SplitJoined(pre: string, xs: seq<string>)
    requires xs != [] && ';' !in pre && forall i :: 0 <= i < |xs| ==> ';' !in xs[i]
    ensures Split(pre + Join(Separator, xs), ';') == [pre + xs[0]] + SpacePrefixed(xs[1..])
    decreases |xs|
  {
    if |xs| == 1 {
      SplitNoSeparator(pre + xs[0], ';');
    } else {
      var rest := Join(Separator, xs[1..]);
      assert pre + Join(Separator, xs) == (pre + xs[0]) + [';'] + (" " + rest);
      SplitAfterPart(pre + xs[0], ';', " " + rest);
      SplitJoined(" ", xs[1..]);
      assert xs[1..][1..] == xs[2..];
    }
  }

  lemma {:induction false} KeepStrippedSpaced(xs: seq<string>)
    requires forall i :: 0 <= i < |xs| ==> xs[i] != "" && Strip(xs[i]) == xs[i]
    ensures KeepStripped(SpacePrefixed(xs)) == xs
  {
    if xs != [] {
      StripLeadingSpace(' ', xs[0]);
      KeepStrippedSpaced(xs[1..]);
      assert SpacePrefixed(xs)[1..] == SpacePrefixed(xs[1..]);
    }
  }

  /**
   * Reading the species cell back gives the species list again when no
   * entity is empty or holds a `;` and every entity is stripped; then the
   * number of parts of the cell is `species_count`.
   */
  lemma SpeciesCellRoundTrip(species: seq<string>)
    requires forall i :: 0 <= i < |species| ==> species[i] != "" && ';' !in species[i] && Strip(species[i]) == species[i]
    ensures ParseSpeciesCell(SpeciesCell(species)) == species
  {
    if species == [] {
      StripSpec("");
    } else {
      SplitJoined("", species);
      assert "" + Join(Separator, species) == Join(Separator, species);
      assert "" + species[0] == species[0];
      KeepStrippedSpaced(species[1..]);
    }
  }

  /**
   * For what `extract_species_from_text` returns, the entities are already
   * stripped: the cell reads back as the list unless an entity is empty or
   * holds a `;`.
   */
  lemma ExtractedCellRoundTrip(species: seq<string>, recognize: string -> seq<Span>, text: Option<string>)
    requires IsSpeciesListFor(species, recognize, text)
    requires forall i :: 0 <= i < |species| ==> species[i] != "" && ';' !in species[i]
    ensures ParseSpeciesCell(SpeciesCell(species)) == species
    ensures |ParseSpeciesCell(SpeciesCell(species))| == |species|
  {
    forall i | 0 <= i < |species| ensures Strip(species[i]) == species[i] {
      SpeciesAreStripped(species, recognize, text, species[i]);
    }
    SpeciesCellRoundTrip(species);
  }

  /** A row after `df['extracted_species'] = None` and `df['species_count'] = 0`. */
  function WithDefaults(row: Row): Row {
    row[ExtractedColumn := Missing][CountColumn := Int(0)]
  }

  /** A row once the loop has written its two derived cells. */
  function Annotated(row: Row, species: seq<string>): Row {
    row[ExtractedColumn := Str(SpeciesCell(species))][CountColumn := Int(|species|)]
  }

  /** `len(df[df['species_count'] > 0])`. */
  function PapersWithSpecies(rows: seq<Row>): nat {
    if rows == [] then 0
    else
      var last := rows[|rows| - 1];
      PapersWithSpecies(rows[..|rows| - 1])
        + (if CountColumn in last && last[CountColumn].Int? && last[CountColumn].n > 0 then 1 else 0)
  }

  /**
   * Once every row carries its list's length in `species_count`, the rows
   * counted as papers with species are those whose list is non-empty, and
   * there are never more of them than rows.
   */
  lemma {:induction false} PapersWithSpeciesCounted(rows: seq<Row>, perRow: seq<seq<string>>)
    requires |rows| == |perRow|
    requires forall i :: 0 <= i < |rows| ==> CountColumn in rows[i] && rows[i][CountColumn] == Int(|perRow[i]|)
    ensures PapersWithSpecies(rows) == RowsWithSpecies(perRow) <= |rows|
  {
    if rows != [] {
      PapersWithSpeciesCounted(rows[..|rows| - 1], perRow[..|perRow| - 1]);
      RowsWithSpeciesBound(perRow);
    }
  }

  /**
   * Row `base` as the loop reads it became `row`: its text cell is not a
   * number, `species` is a species list for that cell, and the row carries
   * the list in its two derived cells.
   */
  ghost predicate RowExtracted(base: Row, row: Row, textColumn: string, recognize: string -> seq<Span>, species: seq<string>) {
    && textColumn in base
    && !base[textColumn].Int?
    && IsSpeciesListFor(species, recognize, CellText(base[textColumn]))
    && row == Annotated(base, species)
  }

  /**
   * One pass of the loop body: the text cell of row `idx` goes through the
   * extractor and the row's two derived cells are written; nothing else in
   * the table changes.
   */
  method AnnotateRow(df: DataFrame, nlp: TaxonModel, idx: nat, textColumn: string) returns (species: seq<string>)
    requires df.Valid() && idx < |df.rows|
    requires ExtractedColumn in df.columns && CountColumn in df.columns
    requires textColumn in df.rows[idx] && !df.rows[idx][textColumn].Int?
    modifies df, nlp
    ensures df.Valid() && df.columns == old(df.columns)
    ensures IsSpeciesListFor(species, nlp.recognize, CellText(old(df.rows)[idx][textColumn]))
    ensures df.rows == old(df.rows)[idx := Annotated(old(df.rows)[idx], species)]
  {
    species := ExtractSpeciesFromText(nlp, CellText(df.rows[idx][textColumn]));
    df.SetAt(idx, ExtractedColumn, Str(SpeciesCell(species)));
    df.SetAt(idx, CountColumn, Int(|species|));
  }

  /**
   * The loop over `df.iterrows()`: each row's text cell goes through the
   * extractor, the row gets its two derived cells, and the row's species
   * are appended to `all_species`. A text cell holding a number makes
   * `text.strip()` raise; the loop then stops at the first such row, the
   * rows before it annotated and the rest as they were.
   */
  method ExtractAllRows(df: DataFrame, nlp: TaxonModel, textColumn: string)
    returns (failedAt: Option<nat>, ghost perRow: seq<seq<string>>, allSpecies: seq<string>)
    requires df.Valid()
    requires textColumn in df.columns && ExtractedColumn in df.columns && CountColumn in df.columns
    modifies df, nlp
    ensures df.Valid() && df.columns == old(df.columns) && |df.rows| == |old(df.rows)|
    ensures failedAt.Some? ==>
      && failedAt.value < |old(df.rows)| && |perRow| == failedAt.value
      && textColumn in old(df.rows)[failedAt.value] && old(df.rows)[failedAt.value][textColumn].Int?
      && (forall j :: 0 <= j < failedAt.value ==> !old(df.rows)[j][textColumn].Int?)
      && (forall j :: 0 <= j < failedAt.value ==> RowExtracted(old(df.rows)[j], df.rows[j], textColumn, nlp.recognize, perRow[j]))
      && (forall j :: failedAt.value <= j < |df.rows| ==> df.rows[j] == old(df.rows)[j])
    ensures failedAt.None? ==>
      && |perRow| == |df.rows|
      && (forall i :: 0 <= i < |df.rows| ==> RowExtracted(old(df.rows)[i], df.rows[i], textColumn, nlp.recognize, perRow[i]))
      && allSpecies == Flatten(perRow)
  {
    ghost var base: seq<Row> := df.rows;
    allSpecies := [];
    perRow := [];
    var i := 0;
    while i < |df.rows|
      invariant 0 <= i <= |df.rows| == |base|
      invariant df.Valid() && df.columns == old(df.columns)
      invariant |perRow| == i
      invariant forall j :: 0 <= j < i ==> RowExtracted(base[j], df.rows[j], textColumn, nlp.recognize, perRow[j])
      invariant forall j :: i <= j < |base| ==> df.rows[j] == base[j]
      invariant allSpecies == Flatten(perRow)
    {
      assert textColumn in df.rows[i];
      var cell := df.rows[i][textColumn];
      if cell.Int? {
        failedAt := Some(i);
        return;
      }
      var species := AnnotateRow(df, nlp, i, textColumn);
      allSpecies := allSpecies + species;
      perRow := perRow + [species];
      assert perRow[..i] == perRow[..|perRow| - 1];
      i := i + 1;
    }
    failedAt := None;
  }

  /** The output path: the one given, or `data/output/results_with_species.csv`. */
  function OutputPath(outputFile: Option<string>): string {
    match outputFile
    case Some(path) => path
    case None => DefaultOutput
  }

  /** `output_file.replace('.csv', '_species_summary.csv')`. */
  function SummaryPath(outputPath: string): string {
    Replace(outputPath, CsvExtension, SummarySuffix)
  }

  /** `.csv` cannot start inside a string shorter than itself and end after it: it has no proper border. */
  lemma CsvNotStraddling(q: string, t: string)
    requires 0 < |q| < |CsvExtension|
    ensures !(CsvExtension <= q + CsvExtension + t)
  {
    var s := q + CsvExtension + t;
    assert s[|q|] == '.';
  }

  /** Behind a non-empty `q`, the inserted `.csv` does not decide whether `.csv` starts the string. */
  lemma CsvPrefixIff(q: string, t: string)
    requires q != []
    ensures CsvExtension <= q + CsvExtension + t <==> CsvExtension <= q
  {
    var s := q + CsvExtension + t;
    if |q| < |CsvExtension| {
      CsvNotStraddling(q, t);
    } else {
      assert s[..4] == q[..4];
    }
  }

  /**
   * Every `.csv` in the output path is replaced, not only a trailing one:
   * the path splits at any occurrence into independently replaced halves.
   */
  lemma {:induction false} SummaryPathSplits(q: string, t: string)
    ensures SummaryPath(q + CsvExtension + t) == SummaryPath(q) + SummarySuffix + SummaryPath(t)
    decreases |q|
  {
    var s := q + CsvExtension + t;
    if q == [] {
      assert s == CsvExtension + t;
      assert s[|CsvExtension|..] == t;
    } else {
      CsvPrefixIff(q, t);
      if CsvExtension <= q {
        assert s[4..] == q[4..] + CsvExtension + t;
        SummaryPathSplits(q[4..], t);
      } else {
        assert s[0] == q[0];
        assert s[1..] == q[1..] + CsvExtension + t;
        SummaryPathSplits(q[1..], t);
      }
    }
  }

  /**
   * The summary path differs from the output path exactly when the output
   * path contains `.csv`; without it the summary table would be written
   * over the annotated table.
   */
  lemma SummaryPathCollides(outputPath: string)
    ensures SummaryPath(outputPath) == outputPath <==> !Occurs(outputPath, CsvExtension)
  {
    ReplaceUnchangedIff(outputPath, CsvExtension, SummarySuffix);
  }

  /** A path without a dot contains no `.csv`. */
  lemma NoDotNoCsv(q: string)
    requires '.' !in q
    ensures !Occurs(q, CsvExtension)
  {
    forall i | 0 <= i <= |q| ensures !(CsvExtension <= q[i..]) {
      if i < |q| {
        assert q[i..][0] == q[i];
      }
    }
  }

  /** A path ending in its only `.csv` gets the suffix in place of that extension. */
  lemma SummaryPathOfCsv(q: string)
    requires !Occurs(q, CsvExtension)
    ensures SummaryPath(q + CsvExtension) == q + SummarySuffix
  {
    assert q + CsvExtension == q + CsvExtension + "";
    SummaryPathSplits(q, "");
    ReplaceAbsent(q, CsvExtension, SummarySuffix);
  }

  lemma DefaultSummaryName()
    ensures "data/output/results_with_species" + SummarySuffix == "data/output/results_with_species_species_summary.csv"
  {
  }

  /** With the default output path the summary goes to `data/output/results_with_species_species_summary.csv`. */
  lemma DefaultSummaryPath()
    ensures SummaryPath(OutputPath(None)) == "data/output/results_with_species_species_summary.csv"
  {
    var q := "data/output/results_with_species";
    NoDotNoCsv(q);
    SummaryPathOfCsv(q);
    assert OutputPath(None) == q + CsvExtension;
    DefaultSummaryName();
  }

  /** The second output: where it goes and its rows. */
  datatype Summary = Summary(path: string, table: seq<Entry>)

  /** What a completed run reports and writes, apart from the annotated table itself. */
  datatype Report = Report(
    totalPapers: nat,
    papersWithSpecies: nat,
    totalUniqueSpecies: nat,
    mostMentioned: seq<Entry>,
    outputPath: string,
    summary: Option<Summary>)

  datatype Outcome =
    | ColumnMissing(available: seq<string>)
    | RowFailed(row: nat)
    | Completed(report: Report)

  /**
   * The report of a run whose rows ended as `rows` with species lists
   * `perRow`: the figures printed, the top five species (listed only when
   * there is a species at all), the output path and, for a non-empty tally,
   * the summary path with the full ranking.
   */
  function ReportOf(perRow: seq<seq<string>>, rows: seq<Row>, outputFile: Option<string>): Report {
    var tally := CounterOf(Flatten(perRow));
    var output := OutputPath(outputFile);
    Report(
      |rows|,
      PapersWithSpecies(rows),
      |tally|,
      if |tally| > 0 then MostCommonN(tally, ConsoleTop) else [],
      output,
      if |tally| > 0 then Some(Summary(SummaryPath(output), MostCommon(tally))) else None)
  }

  /**
   * Row `before` of the input table became `after`: its text cell, read
   * after the two derived columns were given their defaults, is not a
   * number and `species` is a species list for it; `after` has the columns
   * of `before` and the two derived ones, `extracted_species` holds the
   * joined list, `species_count` its length, and every other cell is as it
   * was.
   */
  ghost predicate RowAnnotated(before: Row, after: Row, textColumn: string, recognize: string -> seq<Span>, species: seq<string>) {
    var cell := WithDefaults(before);
    && textColumn in cell
    && !cell[textColumn].Int?
    && IsSpeciesListFor(species, recognize, CellText(cell[textColumn]))
    && after.Keys == before.Keys + {ExtractedColumn, CountColumn}
    && after[ExtractedColumn] == Str(SpeciesCell(species))
    && after[CountColumn] == Int(|species|)
    && forall c :: c in before && c != ExtractedColumn && c != CountColumn ==> after[c] == before[c]
  }

  /** The defaults written first are overwritten by the annotation. */
  lemma AnnotationOverridesDefaults(row: Row, species: seq<string>)
    ensures Annotated(WithDefaults(row), species) == Annotated(row, species)
  {
    var a := Annotated(WithDefaults(row), species);
    var b := Annotated(row, species);
    assert a.Keys == b.Keys;
    forall k | k in a ensures a[k] == b[k] {
    }
  }

  /** A row the loop annotated after the defaults were written is a row annotated from the input. */
  lemma ExtractedIsAnnotated(before: Row, after: Row, textColumn: string, recognize: string -> seq<Span>, species: seq<string>)
    requires RowExtracted(WithDefaults(before), after, textColumn, recognize, species)
    ensures RowAnnotated(before, after, textColumn, recognize, species)
  {
    AnnotationOverridesDefaults(before, species);
  }

  /**
   * `process_csv` on a table already read: a missing text column stops the
   * run before anything changes; otherwise the two derived columns are
   * added and the rows are annotated in order. A numeric text cell raises
   * at the first such row, leaving the rows before it annotated and the
   * rest with their defaults; otherwise the run ends with `ReportOf`.
   */
  method ProcessCsv(df: DataFrame, nlp: TaxonModel, textColumn: string, outputFile: Option<string>)
    returns (outcome: Outcome, ghost perRow: seq<seq<string>>)
    requires df.Valid()
    modifies df, nlp
    ensures df.Valid()
    ensures textColumn !in old(df.columns) <==> outcome.ColumnMissing?
    ensures outcome.ColumnMissing? ==>
      outcome.available == old(df.columns) && unchanged(df) && nlp.calls == old(nlp.calls)
    ensures outcome.RowFailed? ==>
      && outcome.row < |old(df.rows)| == |df.rows| && |perRow| == outcome.row
      && textColumn in WithDefaults(old(df.rows)[outcome.row])
      && WithDefaults(old(df.rows)[outcome.row])[textColumn].Int?
      && (forall j :: 0 <= j < outcome.row ==> !WithDefaults(old(df.rows)[j])[textColumn].Int?)
      && (forall j :: 0 <= j < outcome.row ==> RowAnnotated(old(df.rows)[j], df.rows[j], textColumn, nlp.recognize, perRow[j]))
      && (forall j :: outcome.row <= j < |df.rows| ==> df.rows[j] == WithDefaults(old(df.rows)[j]))
    ensures !outcome.ColumnMissing? ==>
      df.columns == WithColumn(WithColumn(old(df.columns), ExtractedColumn), CountColumn)
    ensures outcome.Completed? ==>
      && |perRow| == |df.rows| == |old(df.rows)|
      && (forall i :: 0 <= i < |df.rows| ==> RowAnnotated(old(df.rows)[i], df.rows[i], textColumn, nlp.recognize, perRow[i]))
      && outcome.report == ReportOf(perRow, df.rows, outputFile)
  {
    perRow := [];
    if textColumn !in df.columns {
      return ColumnMissing(df.columns), perRow;
    }
    ghost var base: seq<Row> := df.rows;
    df.AssignColumn(ExtractedColumn, Missing);
    df.AssignColumn(CountColumn, Int(0));
    assert forall i :: 0 <= i < |df.rows| ==> df.rows[i] == WithDefaults(base[i]);
    var failedAt, rows, allSpecies := ExtractAllRows(df, nlp, textColumn);
    perRow := rows;
    forall i | 0 <= i < |perRow| ensures RowAnnotated(base[i], df.rows[i], textColumn, nlp.recognize, perRow[i]) {
      ExtractedIsAnnotated(base[i], df.rows[i], textColumn, nlp.recognize, perRow[i]);
    }
    if failedAt.Some? {
      return RowFailed(failedAt.value), perRow;
    }
    var tally := CounterOf(allSpecies);
    var totalUnique := |tally|;
    var papers := PapersWithSpecies(df.rows);
    var top := if totalUnique > 0 then MostCommonN(tally, ConsoleTop) else [];
    var output := OutputPath(outputFile);
    var summary := if totalUnique > 0 then Some(Summary(SummaryPath(output), MostCommon(tally))) else None;
    outcome := Completed(Report(|df.rows|, papers, totalUnique, top, output, summary));
  }

  /**
   * What a completed run reports, in terms of the rows' species lists: the
   * papers with species are the rows with a non-empty list and at most all
   * rows; the unique species are the distinct names over all rows; the
   * console lists the first five of the ranking; a summary is written
   * exactly when some row has a species, next to the output path, with one
   * row for each species named in some row and for nothing else, no species
   * twice, counts non-increasing, and each count the number of rows naming
   * that species; and the tally adds up to the `species_count` column.
   */
  lemma ReportFacts(
    before: seq<Row>, rows: seq<Row>, textColumn: string, recognize: string -> seq<Span>,
    perRow: seq<seq<string>>, outputFile: Option<string>)
    requires |before| == |rows| == |perRow|
    requires forall i :: 0 <= i < |rows| ==> RowAnnotated(before[i], rows[i], textColumn, recognize, perRow[i])
    ensures var r := ReportOf(perRow, rows, outputFile);
      && r.totalPapers == |rows|
      && r.papersWithSpecies == RowsWithSpecies(perRow) <= |rows|
      && r.totalUniqueSpecies == |set k | k in Flatten(perRow)|
      && |r.mostMentioned| == (if r.totalUniqueSpecies < ConsoleTop then r.totalUniqueSpecies else ConsoleTop)
      && Total(CounterOf(Flatten(perRow))) == SumOfCounts(perRow)
      && (r.summary.Some? <==> RowsWithSpecies(perRow) > 0)
      && (r.summary.Some? ==>
        && r.summary.value.path == SummaryPath(r.outputPath)
        && r.mostMentioned <= r.summary.value.table
        && |r.summary.value.table| == r.totalUniqueSpecies
        && NoDuplicates(Species(r.summary.value.table))
        && (forall k :: k in Species(r.summary.value.table) <==> k in Flatten(perRow))
        && NonIncreasing(r.summary.value.table)
        && forall i :: 0 <= i < |r.summary.value.table| ==>
          r.summary.value.table[i].count == RowsMentioning(perRow, r.summary.value.table[i].species))
  {
    var all := Flatten(perRow);
    var tally := CounterOf(all);
    forall i | 0 <= i < |perRow| ensures NoDuplicates(perRow[i]) {
      assert IsSpeciesListFor(perRow[i], recognize, CellText(WithDefaults(before[i])[textColumn]));
    }
    PapersWithSpeciesCounted(rows, perRow);
    DistinctKeys(all);
    TallyTotal(perRow);
    TallyEmptyIff(perRow);
    TopEntries(tally, ConsoleTop);
    if tally != [] {
      CounterOfSpec(all);
      MostCommonSorted(tally);
      SummaryRows(tally);
      var table := MostCommon(tally);
      assert forall k :: k in Species(table) <==> k in all;
      forall i | 0 <= i < |table| ensures table[i].count == RowsMentioning(perRow, table[i].species) {
        TallyCountsRows(perRow, table[i].species);
      }
    }
  }
}
