# Training dashboard core, in Dafny

`grafico.py` is a Streamlit dashboard over one remote table, `treinamentos`.
Each row of that table holds an area, a month and two counts: trainings on
time ("em dia") and overdue ("vencido"). This project models the logic of the
dashboard between that table and the screen, and proves what it promises.

- **The two-month comparison.** `carregar_dados` normalises labels with
  `.strip().upper()`, filters by area and by the two chosen months, and
  pivots the result into one row per area with zero-filled cells. Also
  modelled: the labels it gives the columns, the guard against choosing one
  month twice, the area selector ("Todas" and then the distinct areas), and
  the chart's lookup of a month's two columns.
- **The write path.** `salvar_registro` is an upsert keyed by the normalised
  (area, month). It is modelled twice:
  - as a function `Upsert` on a `State` value, the specification;
  - as the `RecordStore` class, whose methods change its fields and are
    proved to do what `Upsert` says.
- **The export's column order.** `exportar_para_excel_pivo` keeps 'area', then
  each calendar month's "Em Dia" and "Vencido" columns, when present.
- **The spreadsheet import.**
  - Headers are stripped and lower-cased.
  - The months are the sorted, distinct first words of the count headers.
  - A month is imported only when both of its columns exist.
  - An empty cell counts 0; text goes through `int()`.
  - Every row and month is written through `salvar_registro`, in order.

  `BulkImport.Plan` computes the calls and the error as a function of the
  sheet. The method `BulkImport.Import` runs the loops against a
  `RecordStore` and is proved to leave it as applying the planned calls would.

Modules, one per file:

| file | module | content |
|---|---|---|
| `text.dfy` | `Text` | `str.strip`, `upper`, `lower`, `title`, `split()[0]`, `in` on strings, `int()` and `str()` on integers |
| `order.dfy` | `Order` | Python's string order; `sorted(set(...))` |
| `calendar.dfy` | `Calendar` | the twelve month names |
| `pivot.dfy` | `Pivot` | `pivot_table(index='area', columns='mes', fill_value=0)` |
| `store.dfy` | `Store` | the table, `salvar_registro` and the `RecordStore` class |
| `comparison.dfy` | `Comparison` | `carregar_dados`, the month guard, the area list, the chart's column lookup |
| `export.dfy` | `Export` | the export pivot and its column order |
| `import.dfy` | `BulkImport` | the spreadsheet import |
| `exchange.dfy` | `Exchange` | the export's labels read back by the import |
| `scenarios.dfy` | `Scenarios` | concrete inputs worked through the model |

## Where the code and its intended behaviour disagree

The model follows the code in each case.

- **Month order in the comparison.** The intended behaviour puts the two
  months in calendar order. The code sorts the pivot's columns by month label
  (`sort_index(axis=1, level=1)`), so "FEVEREIRO" comes before "JANEIRO"
  (`Pivot.PivotTable`, `Scenarios.ComparisonExample`).
- **Column count in the comparison.** The intended behaviour has four
  count columns. A chosen month with no surviving record has no columns at
  all, and the chart skips it (`Comparison.ChartColumns`).
- **Text in a count cell.** The intended behaviour decodes a non-numeric count
  cell to 0. The code calls `int()` on it, which raises and ends the
  import. Calls made before that cell stay applied
  (`Scenarios.TextCellStops`, `Scenarios.OverdueTextStops`,
  `BulkImport.Import`).
- **Export, then import.** The intended behaviour is that importing an
  exported table gives back the same records. The labels do come back: a
  one-word month is found again under the month salvar_registro would store,
  and an area under itself (`Exchange.ExportedMonthReimports`,
  `Exchange.ExportedAreaReimports`). The counts do not. The export writes
  every pivot cell, including the 0 filled in for an (area, month) with no
  record (grafico.py:140). The import saves every cell of every paired month
  (grafico.py:249-254, `BulkImport.PlanCellCounts`). So such a pair comes
  back as a new record with counts 0 and 0.

## Model

| member | source | states |
|---|---|---|
| Text.Normalize | grafico.py:56-57 | only that it is no longer than its input; what it means is stated by the four lemmas below |
| Text.Strip | grafico.py:56 | only that the result is `Trimmed`: no whitespace at either end |
| Text.Upper | grafico.py:57 | only that the length is kept; `Text.CaseAt` states the mapping character by character |
| Text.Lower | grafico.py:236 | only that the length is kept; `Text.CaseAt` states the mapping character by character |
| Text.Title | grafico.py:71 | only that the length is kept; `Text.TitleAt` states the rule, `Text.UpperAbsorbs` that only letter case changes |
| Text.TitleAt | grafico.py:71 | `str.title()` character by character: the first character and each one after an uncased character are upper-cased, each one after a cased character lower-cased |
| Text.TitleOfCapitalised | grafico.py:137 | a word of one upper-case letter and then lower-case letters is its own title-cased form |
| Text.CaseAt | grafico.py:57 | character k of the upper- and lower-case forms is character k mapped |
| Text.UpperAbsorbs | grafico.py:71 | upper-casing a title-cased, lower-cased or upper-cased text gives the text upper-cased |
| Text.NormalizeIdempotent | grafico.py:56-57 | normalising a normalised label changes nothing |
| Text.NormalizeIgnoresCase | grafico.py:56-57 | labels that differ only in letter case normalise alike |
| Text.NormalizeIgnoresPadding | grafico.py:56-57 | labels that differ only in surrounding whitespace normalise alike |
| Text.NormalizeShape | grafico.py:56-57 | a normalised label is upper-case and has no whitespace at either end |
| Text.FirstWord | grafico.py:239 | `split()[0]`: the maximal non-whitespace run right after the leading whitespace |
| Text.Contains | grafico.py:239 | the substring test holds exactly when the text occurs at some position |
| Text.ParseInt | grafico.py:250-251 | `int()` of text succeeds exactly on optional padding, an optional sign and at least one digit |
| Text.IntToString | grafico.py:243 | `str()` of an integer: non-empty, with no whitespace at either end; `Text.IntToStringRoundTrip` pairs it with `Text.ParseInt` |
| Text.IntToStringRoundTrip | grafico.py:250-251 | the model's `int()` reads back what its `str()` writes: `int(str(n)) == n` for every integer |
| Text.ParseIntPadded | grafico.py:250-251 | whitespace around an integer's text does not change the value `int()` gives |
| Text.ParseIntZeros | grafico.py:250-251 | leading zeros do not change the value `int()` gives |
| Text.ParseIntSigned | grafico.py:250-251 | a '+' before the digits gives their value, a '-' its negation, leading zeros included |
| Order.Less | grafico.py:191 | no contract of its own: Python's `<` on strings, by code point and a proper prefix first; `Order.LessIrreflexive`, `Order.LessTransitive` and `Order.LessTotal` state that it is a strict total order |
| Order.LessIrreflexive | grafico.py:191 | no string is below itself |
| Order.LessTransitive | grafico.py:191 | below is transitive |
| Order.LessTotal | grafico.py:191 | of two different strings, one is below the other |
| Order.SortedDistinct | grafico.py:240 | `sorted(set(xs))`: strictly ascending, with exactly the elements of `xs` |
| Order.SortedUnique | grafico.py:191 | two strictly ascending lists with the same elements are equal |
| Calendar.MonthNamesAreDistinct | grafico.py:146 | the twelve month names are pairwise distinct |
| Calendar.MonthNameCapitalised | grafico.py:184 | every month name is one upper-case letter followed by lower-case letters |
| Calendar.TitleOfStoredMonth | grafico.py:82 | a menu month as salvar_registro stores it ("MARÇO"), stripped and title-cased, is the menu name again ("Março") |
| Calendar.MonthNamesUpperDistinct | grafico.py:184 | two different menu months stay different once upper-cased |
| Pivot.CellOf | grafico.py:69 | a cell with no entry is 0; otherwise it holds the counts of an entry with that key |
| Pivot.PivotTable | grafico.py:69-70 | months and areas each ascending, each exactly those of the entries; every cell is the cell of its area and month |
| Pivot.CellOfUnique | grafico.py:69 | with one entry per key, a key's cell holds that entry's counts |
| Pivot.PivotCells | grafico.py:69 | with one entry per key, each cell holds its key's entry, or 0 when there is none |
| Comparison.EntryOf | grafico.py:55-57 | no contract of its own: a record with area and month stripped and upper-cased; `Comparison.SelectedExactly` and `Comparison.LoadedCells` use it |
| Comparison.FiltersArea | grafico.py:59 | no contract of its own: an area given, non-empty and not "Todas"; `Comparison.BlankChoiceShowsAll` states the other cases |
| Comparison.Selected | grafico.py:59-63 | no contract of its own; `Comparison.SelectedExactly` states what it keeps |
| Comparison.FilterArea | grafico.py:59-61 | keeps exactly the entries of the chosen area |
| Comparison.FilterMonths | grafico.py:63 | keeps exactly the entries whose month is one of the two chosen months, upper-cased |
| Comparison.SelectedExactly | grafico.py:55-63 | after both filters, an entry is present exactly when it comes from a record and passes both filters |
| Comparison.LoadComparison | grafico.py:46-78 | an empty table gives the first warning; an empty selection gives the second; otherwise a table with at least one row and only the two chosen months |
| Comparison.LoadedShape | grafico.py:59-72 | months and rows ascending; each is exactly what the kept records carry; with an area chosen, that area is the only row |
| Comparison.LoadedMonths | grafico.py:59-70 | the table's months are exactly the normalised months of the kept records |
| Comparison.LoadedAreas | grafico.py:59-70 | the table's rows are exactly the normalised areas of the kept records |
| Comparison.LoadedSingleArea | grafico.py:59-61 | with an area chosen, the table has that one row |
| Comparison.LoadedCells | grafico.py:69 | on a table kept by salvar_registro, a cell holds its record's counts, or 0 when no record has that key |
| Comparison.PivotLabelsKept | grafico.py:59-69 | every row area and month of the pivot passes both filters |
| Comparison.CellOfRecord | grafico.py:69 | on a table kept by salvar_registro, a record's key cell holds its counts |
| Comparison.Columns | grafico.py:70-72 | 'area', then each month's "(Em Dia)" and "(Vencido)" labels, month by month |
| Comparison.EmDiaColumn | grafico.py:71 | no contract of its own: "<Title> (Em Dia)"; `Comparison.EmDiaColumnAt` and `Comparison.ColumnsForMonth` state where it sits and when it exists |
| Comparison.VencidoColumn | grafico.py:71 | no contract of its own: "<Title> (Vencido)"; `Comparison.VencidoColumnAt` and `Comparison.ColumnsForMonth` state where it sits and when it exists |
| Comparison.MenuMonthColumns | grafico.py:99-100 | the chart's labels for a menu month equal the table's labels for the stored month, "<menu name> (Em Dia)" and "<menu name> (Vencido)" |
| Comparison.ColumnsForMonth | grafico.py:99-105 | a month's two chart columns exist exactly when its upper-case form is one of the table's months |
| Comparison.EmDiaColumnAt | grafico.py:99 | wherever a month's on-time label sits, the month is in the table |
| Comparison.VencidoColumnAt | grafico.py:100 | wherever a month's overdue label sits, the month is in the table |
| Comparison.ChartColumns | grafico.py:98-105 | a chosen month's two columns exist together, exactly when a record of that month (and of the chosen area) exists |
| Comparison.Dashboard | grafico.py:195-198 | the same month twice is refused before anything loads |
| Comparison.ShownMonthsDiffer | grafico.py:184-198 | a shown comparison filters on two distinct stored months |
| Comparison.NormalAreas | grafico.py:191 | record k's area, normalised, at position k |
| Comparison.AreaChoices | grafico.py:190-192 | "Todas" first, then ascending, exactly the normalised areas |
| Comparison.AreaChoicesShape | grafico.py:190-192 | "Todas" occurs only first; the rest is the one ascending duplicate-free list of the areas |
| Comparison.TodasIsNotNormal | grafico.py:192 | no label normalises to "Todas" |
| Comparison.ChosenAreaOnly | grafico.py:59-61 | an area picked from the selector is the only row shown |
| Comparison.BlankChoiceShowsAll | grafico.py:59 | a blank area choice filters nothing, like "Todas" or no choice |
| Store.FirstMatch | grafico.py:84-87 | the first record whose stored key equals the given key, or None exactly when there is no match |
| Store.Upsert | grafico.py:80-90 | with a match, only that record's counts change; without one, exactly one record with a fresh id is appended |
| Store.Lookup | grafico.py:84-87 | under one record per key, the counts of that key's record; None exactly when no record matches |
| Store.WithCounts | grafico.py:88 | only that the length is kept; `Store.RecordStore.UpdateCounts` and `Store.UpsertLookup` state the effect |
| Store.UpsertKeepsKeys | grafico.py:80-90 | no call changes an existing record's id, area or month |
| Store.UpsertValid | grafico.py:80-90 | a call keeps ids fresh, one record per key and normalised labels |
| Store.UpsertIdempotent | grafico.py:80-90 | two identical calls leave the table as one does |
| Store.UpsertLookup | grafico.py:80-90 | afterwards the key holds the given counts and every other key is unchanged |
| Store.ApplyAll | grafico.py:80-90 | no contract of its own: the calls upserted in order; the three lemmas below state what it leaves |
| Store.ApplyAllValid | grafico.py:80-90 | any sequence of calls keeps one record per key |
| Store.ApplyAllAppend | grafico.py:80-90 | applying two runs of calls is applying one after the other |
| Store.LastWriteFound | grafico.py:80-90 | the last write names a call to the key that no later call overwrites |
| Store.LastWriteAbsent | grafico.py:80-90 | there is no last write exactly when no call writes to the key |
| Store.ApplyAllLookup | grafico.py:80-90 | after a sequence of calls, a key holds the counts of its last write, or what it held before |
| Store.RecordStore.FindId | grafico.py:84-87 | the id of the first matching record, if any |
| Store.RecordStore.UpdateCounts | grafico.py:88 | every record with the id gets the new counts; nothing else changes |
| Store.RecordStore.Insert | grafico.py:90 | appends one record with the next id |
| Store.RecordStore.Save | grafico.py:80-90 | the object's new state is `Upsert` of its old state |
| Export.ExportEntry | grafico.py:136-138 | no contract of its own: area stripped and upper-cased, month stripped and title-cased; `Export.ExportPivotShape` states the resulting labels |
| Export.Labels | grafico.py:143 | only the length, two labels per month; `Export.LabelIn` states which are pivot columns |
| Export.EmDiaLabel | grafico.py:143 | no contract of its own: "<mes> Em Dia"; `Export.LabelKindsDiffer` and `Export.LabelIn` state it |
| Export.VencidoLabel | grafico.py:143 | no contract of its own: "<mes> Vencido"; `Export.LabelKindsDiffer` and `Export.LabelIn` state it |
| Export.LabelKindsDiffer | grafico.py:143 | an on-time label is never an overdue label, and neither is 'area' |
| Export.PivotColumns | grafico.py:140-144 | 'area' first, then two labels per pivot month |
| Export.ExportOrder | grafico.py:146-154 | 'area' first; `Export.ExportOrderSorted` and `Export.ExportOrderSelects` state the rest |
| Export.OrderOf | grafico.py:146-154 | 'area' first; `Export.OrderMembers` and `Export.OrderSorted` state the rest |
| Export.ExportPivot | grafico.py:131-134 | None exactly for an empty table |
| Export.ExportPivotShape | grafico.py:136-144 | months are the stripped, title-cased months and rows the normalised areas, each once, ascending |
| Export.RestrictMembers | grafico.py:149-152 | the ordering keeps exactly the listed labels present in the pivot |
| Export.OrderColumns | grafico.py:147-152 | the loop builds 'area' and then the month list's labels present in the pivot, in list order |
| Export.ExportColumns | grafico.py:146-154 | the same, over the twelve calendar months |
| Export.OrderMembers | grafico.py:147-152 | a column is kept exactly when it is 'area', or a pivot column carrying one of the listed months |
| Export.OrderSorted | grafico.py:147-152 | an earlier month's columns come first, on time before overdue, each column once |
| Export.ExportOrderSorted | grafico.py:146-152 | calendar order of months, "Em Dia" before "Vencido", no column twice |
| Export.ExportOrderSelects | grafico.py:154 | every selected column exists in the pivot |
| Export.SavedMonthExported | grafico.py:137-152 | a record whose month was saved from the menu has both of that month's columns exported, under the menu name |
| Export.LabelIn | grafico.py:143 | a month's labels are pivot columns exactly when the month is a pivot month |
| Export.ExportColumnsOfRecords | grafico.py:136-154 | a month's columns are exported exactly when some record's title-cased month is that calendar name; other months are dropped |
| BulkImport.HeaderNames | grafico.py:236 | only the length; `BulkImport.HeaderNamesAt` states each column |
| BulkImport.HeaderNamesAt | grafico.py:236 | column k is header k, stripped and lower-cased |
| BulkImport.IndexOf | grafico.py:243 | the position of the first column with the name, no earlier column having it; None exactly when absent |
| BulkImport.CellAt | grafico.py:243 | no contract of its own: the row's cell in the first column with the name, empty when the row is short or the column missing |
| BulkImport.IsCountHeader | grafico.py:239 | no contract of its own: the column contains "em dia" or "vencido"; `Text.Contains` states the test |
| BulkImport.Candidates | grafico.py:239 | no longer than the columns; `BulkImport.CandidatesMembers` states its members |
| BulkImport.CandidatesMembers | grafico.py:239 | a word is a candidate exactly when it is the first word of some count header |
| BulkImport.BaseMonths | grafico.py:239-240 | ascending; `BulkImport.BaseMonthsMembers` states the members |
| BulkImport.AreaText | grafico.py:243 | no contract of its own: `str(cell)`, text as it is, an integer in decimal, an empty cell "nan" |
| BulkImport.RowArea | grafico.py:243 | no contract of its own: the area cell's text normalised; `Exchange.ExportedAreaReimports` uses it |
| BulkImport.MonthStep | grafico.py:246-253 | no contract of its own: nothing for an unpaired month, the first rejected cell (on time before overdue), or one call; `BulkImport.PlanErrors`, `BulkImport.PlanOps` and `BulkImport.PlanCellCounts` state it |
| BulkImport.Plan | grafico.py:236-256 | no contract of its own: the calls and the error of the import; the Plan lemmas below state them, and `BulkImport.Import` is proved to do what it computes |
| BulkImport.EmDiaHeader | grafico.py:246 | no contract of its own: the month lower-cased and " em dia"; `Exchange.ExportedMonthReimports` and `BulkImport.PlanCellCounts` use it |
| BulkImport.VencidoHeader | grafico.py:247 | no contract of its own: the month lower-cased and " vencido"; `Exchange.ExportedMonthReimports` and `BulkImport.PlanCellCounts` use it |
| BulkImport.Paired | grafico.py:249 | no contract of its own: both of the month's columns exist; `BulkImport.PlanOps` and `BulkImport.PlanComplete` state that exactly the paired months are written |
| BulkImport.CountOf | grafico.py:250-251 | no contract of its own: 0 for an empty cell, a number as itself, text through `int()`; `BulkImport.PlanCellCounts` states it at the level of the import |
| BulkImport.BaseMonthsMembers | grafico.py:239-240 | the months are exactly the first words of headers containing "em dia" or "vencido" |
| BulkImport.BaseMonthShape | grafico.py:239-247 | every month is a lower-case word, so salvar_registro only upper-cases it |
| BulkImport.ThenLaws | grafico.py:242-253 | running steps in sequence is associative, with the empty run as unit |
| BulkImport.PlanErrors | grafico.py:236-256 | missing 'area' exactly when no header normalises to it, and then nothing is written; any other error is a rejected cell of a paired month |
| BulkImport.PlanOps | grafico.py:242-253 | every call is for some row's normalised area and a paired header month, with the counts that row's cells decode to |
| BulkImport.PlanComplete | grafico.py:242-253 | with no error, every row writes every paired month, a missing cell as 0 |
| BulkImport.PlanCellCounts | grafico.py:249-254 | with no error, every row writes every paired month: an empty cell as 0, a number as itself, a text cell only when `int()` accepts it, as that integer |
| BulkImport.MonthsPlanStops | grafico.py:245-253 | a failing month ends the row's loop after exactly the calls before it |
| BulkImport.RowsPlanStops | grafico.py:242-253 | a failing row ends the import after exactly the calls up to the failure |
| BulkImport.LaterRowWins | grafico.py:242-253 | when no later row has the same area, the store keeps row i's counts for each paired month |
| BulkImport.ImportRow | grafico.py:245-253 | the month loop leaves the store as applying the row's planned calls would, and reports the row's planned error |
| BulkImport.Import | grafico.py:236-256 | the import leaves the store as applying the planned calls in order would, and reports the planned error |
| Exchange.HeaderOfLabel | grafico.py:236-239 | an exported column "<one word><suffix>" becomes the word lower-cased, a space and the lower-cased suffix word; its first word is the lower-cased word, and it contains the suffix word |
| Exchange.ExportedTitle | grafico.py:137 | a one-word month title-cased is one word whose lower-case form normalises as the month does |
| Exchange.ExportedMonthReimports | grafico.py:136-247 | a one-word month's two exported columns are count headers of the same first word, which names both columns back and normalises to the original month |
| Exchange.ExportedAreaReimports | grafico.py:243 | the area the export writes is read back by the import as that same normalised area |
| Scenarios.ComparisonExample | grafico.py:46-78 | three records compared over Janeiro and Fevereiro: FEVEREIRO before JANEIRO, RH before TI, 0 for TI in Fevereiro |
| Scenarios.TextCellStops | grafico.py:250 | a text on-time cell stops the import before any call |
| Scenarios.OverdueTextStops | grafico.py:251 | a text overdue cell after a valid on-time cell stops the import, with no call |
| Scenarios.BlankCellIsZero | grafico.py:243-253 | a blank cell is written as 0, and the area " rh " as "RH" |
| Scenarios.LastRowKept | grafico.py:242-253 | two rows for one area: the store keeps the second row's counts |

## Left out

- The Supabase client, the network and authentication: the remote table is a
  sequence of records in memory, and `select("*")` is its snapshot.
- The Streamlit widgets, the password gate, the session state and the manual
  edit form: the chosen months and area are parameters.
- `gerar_grafico`'s drawing (matplotlib) and the PDF and Excel writing
  (reportlab, openpyxl, `to_excel`). Only the chart's column lookup and the
  export's column order are modelled.
- `read_excel` itself: a sheet is given as headers and rows of cells (empty,
  integer or text).
- Pivot.CellOf: pandas' `pivot_table` takes the mean of all entries of a
  key, while the model takes the first entry's counts. The two agree when
  there is one record per key, which `salvar_registro` maintains
  (`Store.ApplyAllValid`) and which `Comparison.LoadedCells` assumes. Two
  stored labels that differ only in case or padding are averaged by pandas
  and not by the model.
- BulkImport.CountOf: float cells are not modelled. `int()` truncates a
  non-integral float; the model's numeric cells are integers.
- Text.ParseInt: `int()` also accepts underscores between digits and
  non-ASCII digits. The model rejects them.
- Text.Upper: case mapping covers ASCII and the Latin-1 letters whose other
  case is also Latin-1 (enough for "Março"). Other Unicode case rules are not
  modelled (ß, ÿ, µ, and characters outside Latin-1 are left unchanged).
- Text.Strip: Python's `strip()` and `split()` also treat U+1680,
  U+2000 to U+200A, U+2028, U+2029, U+202F, U+205F and U+3000 as whitespace.
  The model's whitespace stops at Latin-1, so those characters are kept.
- Text.Title: Python counts ª, º, µ, ß and ÿ as cased, so the letter after
  one of them is lower-cased (`"µa".title()` is "Μa"). The model treats them
  as uncased and leaves them unchanged, giving "µA".
- Exchange.ExportedMonthReimports: only months of one word are covered. The
  import takes the first word of a header, so a month label with inner
  whitespace is not found again under its own name.
- Duplicate headers in an imported sheet: the model reads the first column
  with the name, whereas pandas would return several columns.
- The guard `"area" not in df.columns` (grafico.py:74-76) can never fire
  after `reset_index`, whose first column is 'area'. It is not modelled;
  `Comparison.Columns` states that the first column is 'area'.
- Concurrency: two sessions writing at once could both find no match and
  insert twice. The model applies calls one at a time.
- Ids: the store hands out ids from a counter (`nextId`). The remote
  database's own id generation is not modelled, beyond ids being fresh.
