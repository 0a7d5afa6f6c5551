/**
 * The two-month comparison of the dashboard: `carregar_dados`
 * (grafico.py:46-78), the column labels it gives the pivot, the check that the
 * two chosen months differ (grafico.py:195-196), the area choice list
 * (grafico.py:190-192) and the guard of the chart code that looks for a
 * month's two columns (grafico.py:99-105).
 *
 * The records are what `select("*")` returns: a snapshot of the table, whose
 * labels need not be normalised.
 */
module Comparison {
  import opened Text
  import opened Order
  import opened Pivot
  import opened Store
  import opened Calendar

  /** One record after grafico.py:55-57: both labels stripped and upper-cased. */
  function EntryOf(r: Record): Entry {
    Entry(Normalize(r.area), Normalize(r.mes), Count(r.emDia, r.vencido))
  }

  /** The long-format frame `df_raw`, record by record. */
  function Entries(rs: seq<Record>): (es: seq<Entry>)
    ensures |es| == |rs| && forall k :: 0 <= k < |rs| ==> es[k] == EntryOf(rs[k])
  {
    if rs == [] then [] else [EntryOf(rs[0])] + Entries(rs[1..])
  }

  /** Python's `area and area != "Todas"`: a given, non-empty choice other than "Todas". */
  predicate FiltersArea(area: Option<string>) {
    area.Some? && area.value != [] && area.value != "Todas"
  }

  /** `df_raw[df_raw["area"] == area]` (grafico.py:61), order kept. */
  function FilterArea(es: seq<Entry>, area: string): (r: seq<Entry>)
    ensures |r| <= |es|
    ensures forall e :: e in r <==> e in es && e.area == area
  {
    if es == [] then []
    else
      assert forall e :: e in es <==> e == es[0] || e in es[1..] by {
        assert es == [es[0]] + es[1..];
      }
      (if es[0].area == area then [es[0]] else []) + FilterArea(es[1..], area)
  }

  /** `df_raw[df_raw["mes"].isin([mes1.upper(), mes2.upper()])]` (grafico.py:63), order kept. */
  function FilterMonths(es: seq<Entry>, mes1: string, mes2: string): (r: seq<Entry>)
    ensures |r| <= |es|
    ensures forall e :: e in r <==> e in es && (e.mes == Upper(mes1) || e.mes == Upper(mes2))
  {
    if es == [] then []
    else
      assert forall e :: e in es <==> e == es[0] || e in es[1..] by {
        assert es == [es[0]] + es[1..];
      }
      (if es[0].mes == Upper(mes1) || es[0].mes == Upper(mes2) then [es[0]] else [])
        + FilterMonths(es[1..], mes1, mes2)
  }

  /** What the area and month filters let through, for one entry. */
  predicate Keeps(e: Entry, mes1: string, mes2: string, area: Option<string>) {
    && (e.mes == Upper(mes1) || e.mes == Upper(mes2))
    && (FiltersArea(area) ==> e.area == Normalize(area.value))
  }

  /** The frame after both filters (grafico.py:59-63). */
  function Selected(rs: seq<Record>, mes1: string, mes2: string, area: Option<string>): seq<Entry> {
    var es := Entries(rs);
    FilterMonths(if FiltersArea(area) then FilterArea(es, Normalize(area.value)) else es, mes1, mes2)
  }

  /** The filters keep exactly the records of the two months, and of the chosen area when there is one. */
  lemma SelectedExactly(rs: seq<Record>, mes1: string, mes2: string, area: Option<string>)
    ensures forall e :: e in Selected(rs, mes1, mes2, area) <==>
      (exists k :: 0 <= k < |rs| && EntryOf(rs[k]) == e) && Keeps(e, mes1, mes2, area)
  {
    var es := Entries(rs);
    forall e ensures e in es <==> exists k :: 0 <= k < |rs| && EntryOf(rs[k]) == e {
      if e in es {
        var k :| 0 <= k < |es| && es[k] == e;
      }
    }
  }

  /** What `carregar_dados` hands back: an empty frame for either of its two warnings, or the table. */
  datatype LoadResult = NoRecords | NoMatch | Loaded(table: Table)

  /**
   * carregar_dados(mes1, mes2, area): an empty store and an empty filter
   * result each give an empty frame; otherwise the filtered records are
   * pivoted by area and month.
   */
  function LoadComparison(rs: seq<Record>, mes1: string, mes2: string, area: Option<string>): (r: LoadResult)
    ensures r.NoRecords? <==> rs == []
    ensures r.NoMatch? <==> rs != [] && Selected(rs, mes1, mes2, area) == []
    ensures r.Loaded? ==> forall m :: m in r.table.months ==> m == Upper(mes1) || m == Upper(mes2)
    ensures r.Loaded? ==> |r.table.rows| > 0
  {
    if rs == [] then NoRecords
    else
      var es := Selected(rs, mes1, mes2, area);
      if es == [] then NoMatch
      else
        var t := PivotTable(es);
        assert es[0].area in RowAreas(t);
        Loaded(t)
  }

  /**
   * The table's months are exactly the chosen months that some surviving
   * record has, and its rows are exactly the areas of the surviving records,
   * one row each, ascending; with an area filter, that area is the only row.
   */
  lemma LoadedShape(rs: seq<Record>, mes1: string, mes2: string, area: Option<string>)
    requires LoadComparison(rs, mes1, mes2, area).Loaded?
    ensures var t := LoadComparison(rs, mes1, mes2, area).table;
      && Sorted(t.months) && Sorted(RowAreas(t))
      && (forall m :: m in t.months <==>
           exists k :: 0 <= k < |rs| && Keeps(EntryOf(rs[k]), mes1, mes2, area) && Normalize(rs[k].mes) == m)
      && (forall a :: a in RowAreas(t) <==>
           exists k :: 0 <= k < |rs| && Keeps(EntryOf(rs[k]), mes1, mes2, area) && Normalize(rs[k].area) == a)
      && (FiltersArea(area) ==> RowAreas(t) == [Normalize(area.value)])
  {
    LoadedMonths(rs, mes1, mes2, area);
    LoadedAreas(rs, mes1, mes2, area);
    if FiltersArea(area) {
      LoadedSingleArea(rs, mes1, mes2, area);
    }
  }

  /** The table's months are the normalised months of the records both filters keep. */
  lemma LoadedMonths(rs: seq<Record>, mes1: string, mes2: string, area: Option<string>)
    requires LoadComparison(rs, mes1, mes2, area).Loaded?
    ensures var t := LoadComparison(rs, mes1, mes2, area).table;
      forall m :: m in t.months <==>
        exists k :: 0 <= k < |rs| && Keeps(EntryOf(rs[k]), mes1, mes2, area) && Normalize(rs[k].mes) == m
  {
    var es := Selected(rs, mes1, mes2, area);
    var t := PivotTable(es);
    SelectedExactly(rs, mes1, mes2, area);
    forall m ensures m in t.months <==>
      exists k :: 0 <= k < |rs| && Keeps(EntryOf(rs[k]), mes1, mes2, area) && Normalize(rs[k].mes) == m
    {
      if m in t.months {
        var i :| 0 <= i < |es| && es[i].mes == m;
        assert es[i] in es;
      }
      if exists k :: 0 <= k < |rs| && Keeps(EntryOf(rs[k]), mes1, mes2, area) && Normalize(rs[k].mes) == m {
        var k :| 0 <= k < |rs| && Keeps(EntryOf(rs[k]), mes1, mes2, area) && Normalize(rs[k].mes) == m;
        assert EntryOf(rs[k]) in es;
        var i :| 0 <= i < |es| && es[i] == EntryOf(rs[k]);
      }
    }
  }

  /** The table's rows are the normalised areas of the records both filters keep. */
  lemma LoadedAreas(rs: seq<Record>, mes1: string, mes2: string, area: Option<string>)
    requires LoadComparison(rs, mes1, mes2, area).Loaded?
    ensures var t := LoadComparison(rs, mes1, mes2, area).table;
      forall a :: a in RowAreas(t) <==>
        exists k :: 0 <= k < |rs| && Keeps(EntryOf(rs[k]), mes1, mes2, area) && Normalize(rs[k].area) == a
  {
    var es := Selected(rs, mes1, mes2, area);
    var t := PivotTable(es);
    SelectedExactly(rs, mes1, mes2, area);
    forall a ensures a in RowAreas(t) <==>
      exists k :: 0 <= k < |rs| && Keeps(EntryOf(rs[k]), mes1, mes2, area) && Normalize(rs[k].area) == a
    {
      if a in RowAreas(t) {
        var i :| 0 <= i < |es| && es[i].area == a;
        assert es[i] in es;
      }
      if exists k :: 0 <= k < |rs| && Keeps(EntryOf(rs[k]), mes1, mes2, area) && Normalize(rs[k].area) == a {
        var k :| 0 <= k < |rs| && Keeps(EntryOf(rs[k]), mes1, mes2, area) && Normalize(rs[k].area) == a;
        assert EntryOf(rs[k]) in es;
        var i :| 0 <= i < |es| && es[i] == EntryOf(rs[k]);
      }
    }
  }

  /** With an area filter, the chosen area is the table's only row. */
  lemma LoadedSingleArea(rs: seq<Record>, mes1: string, mes2: string, area: Option<string>)
    requires LoadComparison(rs, mes1, mes2, area).Loaded? && FiltersArea(area)
    ensures RowAreas(LoadComparison(rs, mes1, mes2, area).table) == [Normalize(area.value)]
  {
    var es := Selected(rs, mes1, mes2, area);
    var t := PivotTable(es);
    SelectedExactly(rs, mes1, mes2, area);
    var only := [Normalize(area.value)];
    assert es[0] in es;
    assert forall a :: a in RowAreas(t) <==> a in only;
    SortedUnique(RowAreas(t), only);
  }

  /**
   * On a table kept by salvar_registro (one record per key, labels
   * normalised), a cell of the comparison holds the counts of the record with
   * that area and month, and 0 for a pair with no record.
   */
  lemma LoadedCells(rs: seq<Record>, mes1: string, mes2: string, area: Option<string>, row: int, col: int)
    requires UniqueKeys(rs) && AllNormal(rs)
    requires LoadComparison(rs, mes1, mes2, area).Loaded?
    requires 0 <= row < |LoadComparison(rs, mes1, mes2, area).table.rows|
    requires 0 <= col < |LoadComparison(rs, mes1, mes2, area).table.months|
    ensures var t := LoadComparison(rs, mes1, mes2, area).table;
      var a, m := t.rows[row].area, t.months[col];
      && (forall k :: 0 <= k < |rs| && Matches(rs[k], a, m) ==>
           t.rows[row].cells[col] == Count(rs[k].emDia, rs[k].vencido))
      && ((forall k :: 0 <= k < |rs| ==> !Matches(rs[k], a, m)) ==> t.rows[row].cells[col] == Zero)
  {
    var es := Selected(rs, mes1, mes2, area);
    var t := PivotTable(es);
    var a, m := t.rows[row].area, t.months[col];
    SelectedExactly(rs, mes1, mes2, area);
    PivotLabelsKept(es, t, row, col, mes1, mes2, area);
    forall k | 0 <= k < |rs| && Matches(rs[k], a, m)
      ensures t.rows[row].cells[col] == Count(rs[k].emDia, rs[k].vencido)
    {
      assert EntryOf(rs[k]) == Entry(a, m, Count(rs[k].emDia, rs[k].vencido));
      CellOfRecord(rs, es, k);
    }
    if forall k :: 0 <= k < |rs| ==> !Matches(rs[k], a, m) {
      NoRecordNoEntry(rs, es, a, m);
    }
  }

  /** The area and month of every cell of the pivot of filtered entries pass the filters. */
  lemma PivotLabelsKept(es: seq<Entry>, t: Table, row: int, col: int, mes1: string, mes2: string, area: Option<string>)
    requires t == PivotTable(es)
    requires forall e :: e in es ==> Keeps(e, mes1, mes2, area)
    requires 0 <= row < |t.rows| && 0 <= col < |t.months|
    ensures Keeps(Entry(t.rows[row].area, t.months[col], Zero), mes1, mes2, area)
  {
    assert t.rows[row].area in RowAreas(t);
    var i :| 0 <= i < |es| && es[i].area == t.rows[row].area;
    assert t.months[col] in t.months;
    var j :| 0 <= j < |es| && es[j].mes == t.months[col];
    assert es[i] in es && es[j] in es;
  }

  /** An entry drawn from a normalised table has the key of its record. */
  lemma NoRecordNoEntry(rs: seq<Record>, es: seq<Entry>, a: string, m: string)
    requires AllNormal(rs)
    requires forall e :: e in es ==> exists k :: 0 <= k < |rs| && EntryOf(rs[k]) == e
    requires forall k :: 0 <= k < |rs| ==> !Matches(rs[k], a, m)
    ensures forall i :: 0 <= i < |es| ==> !HasKey(es[i], a, m)
  {
    forall i | 0 <= i < |es| ensures !HasKey(es[i], a, m) {
      assert es[i] in es;
      var k :| 0 <= k < |rs| && EntryOf(rs[k]) == es[i];
      assert IsNormal(rs[k].area) && IsNormal(rs[k].mes);
    }
  }

  /**
   * Entries drawn from a table with one record per key and normalised labels:
   * the cell of a record's key holds that record's counts.
   */
  lemma CellOfRecord(rs: seq<Record>, es: seq<Entry>, k: int)
    requires UniqueKeys(rs) && AllNormal(rs)
    requires forall e :: e in es ==> exists k :: 0 <= k < |rs| && EntryOf(rs[k]) == e
    requires 0 <= k < |rs| && EntryOf(rs[k]) in es
    ensures CellOf(es, rs[k].area, rs[k].mes) == Count(rs[k].emDia, rs[k].vencido)
  {
    var a, m := rs[k].area, rs[k].mes;
    var i :| 0 <= i < |es| && es[i] == EntryOf(rs[k]);
    assert IsNormal(rs[k].area) && IsNormal(rs[k].mes);
    assert HasKey(es[i], a, m);
    var j :| 0 <= j < |es| && HasKey(es[j], a, m) && CellOf(es, a, m) == es[j].count
      && forall k :: 0 <= k < j ==> !HasKey(es[k], a, m);
    assert HasKey(es[j], a, m);
    assert es[j].mes == m;
    assert es[j] in es;
    var k' :| 0 <= k' < |rs| && EntryOf(rs[k']) == es[j];
    assert IsNormal(rs[k'].area) && IsNormal(rs[k'].mes);
    assert es[j].area == Normalize(rs[k'].area) == rs[k'].area;
    assert es[j].mes == Normalize(rs[k'].mes) == rs[k'].mes;
    assert es[j].mes == m;
    assert rs[k'].mes == m;
    assert Matches(rs[k'], a, m);
  }

  /** The label of a month's on-time column (grafico.py:71, for tipo "em_dia"). */
  function EmDiaColumn(mes: string): string {
    Title(mes) + " (Em Dia)"
  }

  /** The label of a month's overdue column (grafico.py:71, for tipo "vencido"). */
  function VencidoColumn(mes: string): string {
    Title(mes) + " (Vencido)"
  }

  /**
   * The chart's labels for a menu month ("Março (Em Dia)") are the table's
   * labels for the stored month ("MARÇO"), and both read as the menu name.
   */
  lemma MenuMonthColumns(i: int)
    requires 0 <= i < |MonthNames|
    ensures EmDiaColumn(MonthNames[i]) == EmDiaColumn(Normalize(MonthNames[i])) == MonthNames[i] + " (Em Dia)"
    ensures VencidoColumn(MonthNames[i]) == VencidoColumn(Normalize(MonthNames[i])) == MonthNames[i] + " (Vencido)"
  {
    TitleOfStoredMonth(i);
    MonthNameCapitalised(i);
    TitleOfCapitalised(MonthNames[i]);
  }

  /** The count columns of a month list, month by month, on time before overdue. */
  function MonthColumns(months: seq<string>): (cols: seq<string>)
    ensures |cols| == 2 * |months|
    ensures forall j :: 0 <= j < |months| ==>
      cols[2 * j] == EmDiaColumn(months[j]) && cols[2 * j + 1] == VencidoColumn(months[j])
  {
    if months == [] then []
    else
      var rest := MonthColumns(months[1..]);
      assert forall j :: 1 <= j < |months| ==> months[j] == months[1..][j - 1];
      [EmDiaColumn(months[0]), VencidoColumn(months[0])] + rest
  }

  /**
   * The columns of the comparison frame after `reset_index` (grafico.py:70-72):
   * 'area', then for each month of the table, ascending, its on-time and its
   * overdue column.
   */
  function Columns(t: Table): (cols: seq<string>)
    ensures |cols| == 1 + 2 * |t.months| && cols[0] == "area"
    ensures forall j :: 0 <= j < |t.months| ==>
      cols[1 + 2 * j] == EmDiaColumn(t.months[j]) && cols[2 + 2 * j] == VencidoColumn(t.months[j])
  {
    ["area"] + MonthColumns(t.months)
  }

  /** Two column labels with different kinds never coincide. */
  lemma KindsDiffer(a: string, b: string)
    ensures a + " (Em Dia)" != b + " (Vencido)"
    ensures "area" != a + " (Em Dia)" && "area" != b + " (Vencido)"
  {
    var x, y := a + " (Em Dia)", b + " (Vencido)";
    if |x| == |y| {
      assert x[|x| - 2] == 'a' && y[|y| - 2] == 'o';
    }
  }

  /**
   * The chart code's lookup (grafico.py:99-105): for a table of upper-case
   * months, a month's on-time column and its overdue column exist exactly
   * when its upper-case form is one of the table's months.
   */
  lemma ColumnsForMonth(t: Table, mes: string)
    requires forall m :: m in t.months ==> Upper(m) == m
    ensures EmDiaColumn(mes) in Columns(t) <==> Upper(mes) in t.months
    ensures VencidoColumn(mes) in Columns(t) <==> Upper(mes) in t.months
  {
    var cols := Columns(t);
    TitleOfUpper(mes);
    if EmDiaColumn(mes) in cols {
      var p :| 0 <= p < |cols| && cols[p] == EmDiaColumn(mes);
      EmDiaColumnAt(t, mes, p);
    }
    if VencidoColumn(mes) in cols {
      var p :| 0 <= p < |cols| && cols[p] == VencidoColumn(mes);
      VencidoColumnAt(t, mes, p);
    }
    if Upper(mes) in t.months {
      var j :| 0 <= j < |t.months| && t.months[j] == Upper(mes);
      assert cols[1 + 2 * j] == EmDiaColumn(mes);
      assert cols[2 + 2 * j] == VencidoColumn(mes);
    }
  }

  /** An on-time label sits at an odd position, after the title of its month. */
  lemma EmDiaTitleAt(t: Table, mes: string, p: int)
    requires 0 <= p < |Columns(t)| && Columns(t)[p] == EmDiaColumn(mes)
    ensures p % 2 == 1 && Title(t.months[(p - 1) / 2]) == Title(mes)
  {
    var cols := Columns(t);
    KindsDiffer(Title(mes), Title(mes));
    if p % 2 == 0 {
      if p == 0 {
        assert false;
      } else {
        var j := p / 2 - 1;
        assert cols[2 + 2 * j] == VencidoColumn(t.months[j]);
        KindsDiffer(Title(mes), Title(t.months[j]));
        assert false;
      }
    }
    var j := (p - 1) / 2;
    assert cols[1 + 2 * j] == EmDiaColumn(t.months[j]);
    SuffixCancels(Title(t.months[j]), Title(mes), " (Em Dia)");
  }

  /** An overdue label sits at a positive even position, after the title of its month. */
  lemma VencidoTitleAt(t: Table, mes: string, p: int)
    requires 0 <= p < |Columns(t)| && Columns(t)[p] == VencidoColumn(mes)
    ensures p % 2 == 0 && p > 0 && Title(t.months[(p - 1) / 2]) == Title(mes)
  {
    var cols := Columns(t);
    KindsDiffer(Title(mes), Title(mes));
    if p % 2 == 1 {
      var j := (p - 1) / 2;
      assert cols[1 + 2 * j] == EmDiaColumn(t.months[j]);
      KindsDiffer(Title(t.months[j]), Title(mes));
      assert false;
    }
    if p == 0 {
      assert false;
    }
    var j := (p - 1) / 2;
    assert cols[2 + 2 * j] == VencidoColumn(t.months[j]);
    SuffixCancels(Title(t.months[j]), Title(mes), " (Vencido)");
  }

  /** Where a month's on-time label sits among the columns, that month is in the table. */
  lemma EmDiaColumnAt(t: Table, mes: string, p: int)
    requires forall m :: m in t.months ==> Upper(m) == m
    requires 0 <= p < |Columns(t)| && Columns(t)[p] == EmDiaColumn(mes)
    ensures Upper(mes) in t.months
  {
    EmDiaTitleAt(t, mes, p);
    var m := t.months[(p - 1) / 2];
    assert m in t.months;
    UpperAbsorbs(mes);
    TitleOfUpper(mes);
    TitleInjectiveOnUpper(m, Upper(mes));
  }

  /** Where a month's overdue label sits among the columns, that month is in the table. */
  lemma VencidoColumnAt(t: Table, mes: string, p: int)
    requires forall m :: m in t.months ==> Upper(m) == m
    requires 0 <= p < |Columns(t)| && Columns(t)[p] == VencidoColumn(mes)
    ensures Upper(mes) in t.months
  {
    VencidoTitleAt(t, mes, p);
    var m := t.months[(p - 1) / 2];
    assert m in t.months;
    UpperAbsorbs(mes);
    TitleOfUpper(mes);
    TitleInjectiveOnUpper(m, Upper(mes));
  }

  /** The months of a loaded comparison are upper-case, being normalised labels. */
  lemma LoadedMonthsUpper(rs: seq<Record>, mes1: string, mes2: string, area: Option<string>)
    requires LoadComparison(rs, mes1, mes2, area).Loaded?
    ensures forall m :: m in LoadComparison(rs, mes1, mes2, area).table.months ==> Upper(m) == m
  {
    LoadedShape(rs, mes1, mes2, area);
    forall m | m in LoadComparison(rs, mes1, mes2, area).table.months ensures Upper(m) == m {
      var k :| 0 <= k < |rs| && Keeps(EntryOf(rs[k]), mes1, mes2, area) && Normalize(rs[k].mes) == m;
      NormalizeShape(rs[k].mes);
    }
  }

  /**
   * The chart finds both columns of a chosen month exactly when some record
   * of that month (and of the chosen area, if one is chosen) exists; otherwise
   * the month has no columns at all and the chart skips it.
   */
  lemma ChartColumns(rs: seq<Record>, mes1: string, mes2: string, area: Option<string>, mes: string)
    requires LoadComparison(rs, mes1, mes2, area).Loaded?
    requires mes == mes1 || mes == mes2
    ensures var cols := Columns(LoadComparison(rs, mes1, mes2, area).table);
      && (EmDiaColumn(mes) in cols <==> VencidoColumn(mes) in cols)
      && (EmDiaColumn(mes) in cols <==>
           exists k :: 0 <= k < |rs| && Normalize(rs[k].mes) == Upper(mes)
             && (FiltersArea(area) ==> Normalize(rs[k].area) == Normalize(area.value)))
  {
    var t := LoadComparison(rs, mes1, mes2, area).table;
    LoadedMonthsUpper(rs, mes1, mes2, area);
    LoadedShape(rs, mes1, mes2, area);
    ColumnsForMonth(t, mes);
  }

  /** What the page shows under the selectors (grafico.py:195-198). */
  datatype Screen = SameMonthTwice | Shown(result: LoadResult)

  /** The same month chosen twice is refused before anything is loaded. */
  function Dashboard(rs: seq<Record>, mes1: string, mes2: string, area: Option<string>): (r: Screen)
    ensures r.SameMonthTwice? <==> mes1 == mes2
  {
    if mes1 == mes2 then SameMonthTwice else Shown(LoadComparison(rs, mes1, mes2, area))
  }

  /**
   * Two different menu months are two different stored months, so a shown
   * comparison filters on two distinct months.
   */
  lemma ShownMonthsDiffer(rs: seq<Record>, i: int, j: int, area: Option<string>)
    requires 0 <= i < |MonthNames| && 0 <= j < |MonthNames|
    requires Dashboard(rs, MonthNames[i], MonthNames[j], area).Shown?
    ensures Upper(MonthNames[i]) != Upper(MonthNames[j])
  {
    MonthNamesUpperDistinct(i, j);
  }

  /** The stored areas, normalised, record by record (grafico.py:191). */
  function NormalAreas(rs: seq<Record>): (r: seq<string>)
    ensures |r| == |rs| && forall k :: 0 <= k < |rs| ==> r[k] == Normalize(rs[k].area)
  {
    if rs == [] then [] else [Normalize(rs[0].area)] + NormalAreas(rs[1..])
  }

  /** The area selector's options: "Todas", then the distinct normalised areas, ascending (grafico.py:190-192). */
  function AreaChoices(rs: seq<Record>): (r: seq<string>)
    ensures |r| >= 1 && r[0] == "Todas"
    ensures Sorted(r[1..])
    ensures forall a :: a in r[1..] <==> exists k :: 0 <= k < |rs| && Normalize(rs[k].area) == a
  {
    var areas := SortedDistinct(NormalAreas(rs));
    assert (["Todas"] + areas)[1..] == areas;
    ["Todas"] + areas
  }

  /**
   * "Todas" is listed once, first: no normalised area can equal it, since
   * normalised labels are upper-case. The other options are the only
   * ascending, duplicate-free list of the normalised areas.
   */
  lemma AreaChoicesShape(rs: seq<Record>, areas: seq<string>)
    requires Sorted(areas)
    requires forall a :: a in areas <==> exists k :: 0 <= k < |rs| && Normalize(rs[k].area) == a
    ensures "Todas" !in AreaChoices(rs)[1..]
    ensures AreaChoices(rs)[1..] == areas
  {
    var r := AreaChoices(rs);
    if "Todas" in r[1..] {
      var k :| 0 <= k < |rs| && Normalize(rs[k].area) == "Todas";
      TodasIsNotNormal(rs[k].area);
    }
    SortedUnique(r[1..], areas);
  }

  /** "Todas" has lower-case letters, so no label normalises to it. */
  lemma TodasIsNotNormal(s: string)
    ensures Normalize(s) != "Todas"
  {
    NormalizeShape(s);
    var t := Normalize(s);
    if t == "Todas" {
      CaseAt(t, 1);
      assert false;
    }
  }

  /**
   * Choosing a non-blank area from the selector restricts the comparison to
   * that one area.
   */
  lemma ChosenAreaOnly(rs: seq<Record>, mes1: string, mes2: string, a: string)
    requires a in AreaChoices(rs)[1..] && a != []
    requires LoadComparison(rs, mes1, mes2, Some(a)).Loaded?
    ensures RowAreas(LoadComparison(rs, mes1, mes2, Some(a)).table) == [a]
  {
    var k :| 0 <= k < |rs| && Normalize(rs[k].area) == a;
    NormalizeIdempotent(rs[k].area);
    AreaChoicesShape(rs, AreaChoices(rs)[1..]);
    LoadedShape(rs, mes1, mes2, Some(a));
  }

  /**
   * Python's truthiness test (grafico.py:59) treats a blank area like "Todas":
   * choosing the blank area, offered when some record's area is blank, shows
   * every area.
   */
  lemma BlankChoiceShowsAll(rs: seq<Record>, mes1: string, mes2: string)
    ensures LoadComparison(rs, mes1, mes2, Some("")) == LoadComparison(rs, mes1, mes2, Some("Todas"))
    ensures LoadComparison(rs, mes1, mes2, Some("")) == LoadComparison(rs, mes1, mes2, None)
  {
  }
}
