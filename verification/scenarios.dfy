/**
 * Worked examples: the comparison table for three records, and three
 * imports of a one-month sheet (a text cell that int() rejects, a missing
 * cell, two rows for the same area).
 */
module Scenarios {
  import opened Text
  import opened Order
  import opened Pivot
  import opened Store
  import Comparison
  import opened BulkImport

  /** Three records: two months for RH, one for TI. */
  const records := [Record(0, "RH", "JANEIRO", 10, 2), Record(1, "RH", "FEVEREIRO", 8, 5), Record(2, "TI", "JANEIRO", 20, 0)]
  /** What the comparison of Janeiro and Fevereiro keeps of them, normalised. */
  const entries := [Entry("RH", "JANEIRO", Count(10, 2)), Entry("RH", "FEVEREIRO", Count(8, 5)), Entry("TI", "JANEIRO", Count(20, 0))]
  /** The records' labels are already normalised. */
  lemma AreaLabels()
    ensures Normalize("RH") == "RH" && Normalize("TI") == "TI"
  {
  }

  /** A label of upper-case letters is its own normal form. */
  lemma UpperLabel(s: string)
    requires s != [] && forall k :: 0 <= k < |s| ==> 'A' <= s[k] <= 'Z'
    ensures Normalize(s) == s
  {
    StripOfTrimmed(s);
    UpperInto(s, s);
  }

  /** The two chosen months upper-case to the records' month labels. */
  lemma MonthLabels()
    ensures Normalize("JANEIRO") == "JANEIRO" == Upper("Janeiro")
    ensures Normalize("FEVEREIRO") == "FEVEREIRO" == Upper("Fevereiro")
  {
    UpperLabel("JANEIRO");
    UpperLabel("FEVEREIRO");
    JaneiroUpper();
    FevereiroUpper();
  }

  lemma JaneiroUpper()
    ensures Upper("Janeiro") == "JANEIRO"
  {
    UpperInto("Janeiro", "JANEIRO");
  }

  lemma FevereiroUpper()
    ensures Upper("Fevereiro") == "FEVEREIRO"
  {
    UpperInto("Fevereiro", "FEVEREIRO");
  }

  /** The records, normalised. */
  lemma EntriesOfRecords()
    ensures Comparison.Entries(records) == entries
  {
    AreaLabels();
    MonthLabels();
  }

  /** The month filter keeps a list whose every entry has one of the two months. */
  lemma {:induction false} MonthFilterKeeps(es: seq<Entry>, mes1: string, mes2: string, label1: string, label2: string)
    requires Upper(mes1) == label1 && Upper(mes2) == label2
    requires forall k :: 0 <= k < |es| ==> es[k].mes == label1 || es[k].mes == label2
    ensures Comparison.FilterMonths(es, mes1, mes2) == es
  {
    if es != [] {
      MonthFilterKeeps(es[1..], mes1, mes2, label1, label2);
      assert es == [es[0]] + es[1..];
    }
  }

  /** Both months are chosen, so the month filter keeps all three entries. */
  lemma MonthFilterKeepsAll()
    ensures Comparison.FilterMonths(entries, "Janeiro", "Fevereiro") == entries
  {
    JaneiroUpper();
    FevereiroUpper();
    var es := entries;
    forall k | 0 <= k < |es| ensures es[k].mes == "JANEIRO" || es[k].mes == "FEVEREIRO" {
      assert k == 0 || k == 1 || k == 2;
    }
    MonthFilterKeeps(entries, "Janeiro", "Fevereiro", "JANEIRO", "FEVEREIRO");
  }

  /** The selection keeps every record, normalised, when no area is chosen. */
  lemma SelectionOfRecords()
    ensures Comparison.Selected(records, "Janeiro", "Fevereiro", Some("Todas")) == entries
  {
    EntriesOfRecords();
    MonthFilterKeepsAll();
  }

  /** The pivot's months: both, in alphabetical order. */
  lemma PivotMonths()
    ensures PivotTable(entries).months == ["FEVEREIRO", "JANEIRO"]
  {
    assert Less("FEVEREIRO", "JANEIRO");
    SortedUnique(PivotTable(entries).months, ["FEVEREIRO", "JANEIRO"]);
  }

  /** The pivot's rows: RH, then TI. */
  lemma PivotAreas()
    ensures RowAreas(PivotTable(entries)) == ["RH", "TI"]
  {
    assert Less("RH", "TI");
    SortedUnique(RowAreas(PivotTable(entries)), ["RH", "TI"]);
  }

  /** The cells: each entry's counts, and zero for TI in Fevereiro. */
  lemma PivotCellsOf()
    ensures CellOf(entries, "RH", "FEVEREIRO") == Count(8, 5)
    ensures CellOf(entries, "RH", "JANEIRO") == Count(10, 2)
    ensures CellOf(entries, "TI", "FEVEREIRO") == Zero
    ensures CellOf(entries, "TI", "JANEIRO") == Count(20, 0)
  {
    CellOfUnique(entries, 0);
    CellOfUnique(entries, 1);
    CellOfUnique(entries, 2);
  }

  /** carregar_dados over the three records pivots the three entries. */
  lemma LoadOfRecords()
    ensures Comparison.LoadComparison(records, "Janeiro", "Fevereiro", Some("Todas")) == Comparison.Loaded(PivotTable(entries))
  {
    SelectionOfRecords();
  }

  /**
   * The comparison of Janeiro with Fevereiro over the three records:
   * Fevereiro's column before Janeiro's, RH's row before TI's, and zero for
   * TI in Fevereiro, which has no record.
   */
  lemma ComparisonExample()
    ensures var r := Comparison.LoadComparison(records, "Janeiro", "Fevereiro", Some("Todas"));
      && r.Loaded?
      && r.table.months == ["FEVEREIRO", "JANEIRO"]
      && RowAreas(r.table) == ["RH", "TI"]
      && r.table.rows[0].cells == [Count(8, 5), Count(10, 2)]
      && r.table.rows[1].cells == [Zero, Count(20, 0)]
  {
    LoadOfRecords();
    PivotShape();
  }

  /** The pivot of the three entries. */
  lemma PivotShape()
    ensures PivotTable(entries).months == ["FEVEREIRO", "JANEIRO"]
    ensures RowAreas(PivotTable(entries)) == ["RH", "TI"]
    ensures PivotTable(entries).rows[0].cells == [Count(8, 5), Count(10, 2)]
    ensures PivotTable(entries).rows[1].cells == [Zero, Count(20, 0)]
  {
    PivotMonths();
    PivotAreas();
    PivotCellsOf();
    RowCells(entries, 0, "RH");
    RowCells(entries, 1, "TI");
  }

  /** A row of the two-month pivot holds its area's cells for Fevereiro and Janeiro. */
  lemma RowCells(es: seq<Entry>, k: int, area: string)
    requires PivotTable(es).months == ["FEVEREIRO", "JANEIRO"]
    requires 0 <= k < |PivotTable(es).rows| && PivotTable(es).rows[k].area == area
    ensures PivotTable(es).rows[k].cells == [CellOf(es, area, "FEVEREIRO"), CellOf(es, area, "JANEIRO")]
  {
    var t := PivotTable(es);
    assert t.rows[k].cells[0] == CellOf(es, area, t.months[0]);
    assert t.rows[k].cells[1] == CellOf(es, area, t.months[1]);
  }

  /** An import sheet's headers, already stripped and lower-case. */
  const headers := ["area", "janeiro em dia", "janeiro vencido"]

  lemma NamesOfHeaders()
    ensures HeaderNames(headers) == headers
  {
    var h := headers;
    forall i | 0 <= i < 3 ensures Lower(Strip(h[i])) == h[i] {
      StripOfTrimmed(h[i]);
      LowerOfUncased(h[i]);
    }
    assert HeaderNames(h[2..]) == [h[2]];
  }

  lemma WordOfHeaders()
    ensures FirstWord(headers[1]) == "janeiro" && FirstWord(headers[2]) == "janeiro"
  {
    assert LeadingSpaces(headers[1]) == 0;
    assert LeadingSpaces(headers[2]) == 0;
  }

  lemma CountHeaders()
    ensures !IsCountHeader(headers[0]) && IsCountHeader(headers[1]) && IsCountHeader(headers[2])
  {
    assert OccursAt(headers[1], "em dia", 8);
    assert OccursAt(headers[2], "vencido", 8);
  }

  lemma MonthsOfHeaders()
    ensures BaseMonths(headers) == ["janeiro"]
  {
    WordOfHeaders();
    CountHeaders();
    assert Candidates(headers[2..]) == ["janeiro"];
    assert Candidates(headers) == ["janeiro", "janeiro"];
    SortedUnique(BaseMonths(headers), ["janeiro"]);
  }

  lemma JaneiroHeaders()
    ensures EmDiaHeader("janeiro") == headers[1] && VencidoHeader("janeiro") == headers[2]
  {
    LowerOfUncased("janeiro");
    assert "janeiro" + " em dia" == headers[1];
    assert "janeiro" + " vencido" == headers[2];
  }

  /** A sheet of one row and one month makes that month's step, and nothing else. */
  lemma OneRowOneMonth(sheet: Sheet, m: string)
    requires "area" in HeaderNames(sheet.headers) && BaseMonths(HeaderNames(sheet.headers)) == [m] && |sheet.rows| == 1
    ensures var cols := HeaderNames(sheet.headers);
      Plan(sheet) == MonthStep(cols, sheet.rows[0], 0, RowArea(sheet.rows[0], cols), m)
  {
    var cols := HeaderNames(sheet.headers);
    var step := MonthStep(cols, sheet.rows[0], 0, RowArea(sheet.rows[0], cols), m);
    assert [m][..0] == [];
    ThenLaws(step, step, step);
    assert MonthsPlan(cols, sheet.rows[0], 0, RowArea(sheet.rows[0], cols), []) == Outcome([], None);
    assert MonthsPlan(cols, sheet.rows[0], 0, RowArea(sheet.rows[0], cols), [m]) == step;
    assert RowPlan(cols, [m], sheet.rows, 0) == step;
    assert RowsPlan(cols, [m], sheet.rows, 0, 0) == Outcome([], None);
  }

  lemma HeaderPositions()
    ensures IndexOf(headers, "area") == Some(0)
    ensures IndexOf(headers, "janeiro em dia") == Some(1)
    ensures IndexOf(headers, "janeiro vencido") == Some(2)
  {
    assert headers[0] != "janeiro em dia" && headers[0] != "janeiro vencido";
    assert headers[1] != "janeiro vencido";
    assert headers[1..][1..] == [headers[2]];
  }

  /** int("x") raises. */
  lemma XRejected()
    ensures ParseInt("x") == None
  {
    StripOfTrimmed("x");
    assert !IsDigit("x"[0]);
  }

  /** A text cell int() rejects stops the import at that cell, before any call. */
  lemma TextCellStops()
    ensures Plan(Sheet(headers, [[Str("rh"), Str("x"), Num(1)]])) == Outcome([], Some(BadCell(0, "janeiro em dia")))
  {
    var sheet := Sheet(headers, [[Str("rh"), Str("x"), Num(1)]]);
    NamesOfHeaders();
    MonthsOfHeaders();
    JaneiroHeaders();
    OneRowOneMonth(sheet, "janeiro");
    HeaderPositions();
    XRejected();
    assert CellAt(sheet.rows[0], headers, "janeiro em dia") == Str("x");
  }

  /**
   * A rejected overdue cell stops the import after the on-time cell was read
   * but before the month is written: no call is made, not a call with 0.
   */
  lemma OverdueTextStops()
    ensures Plan(Sheet(headers, [[Str("RH"), Num(5), Str("x")]])) == Outcome([], Some(BadCell(0, "janeiro vencido")))
  {
    var sheet := Sheet(headers, [[Str("RH"), Num(5), Str("x")]]);
    NamesOfHeaders();
    MonthsOfHeaders();
    JaneiroHeaders();
    OneRowOneMonth(sheet, "janeiro");
    HeaderPositions();
    XRejected();
    assert CellAt(sheet.rows[0], headers, "janeiro em dia") == Num(5);
    assert CellAt(sheet.rows[0], headers, "janeiro vencido") == Str("x");
  }

  lemma RhArea()
    ensures Normalize(" rh ") == "RH"
  {
    assert " rh "[1..] == "rh ";
    StripIgnoresPadding(" ", "rh", " ");
    assert " " + "rh" + " " == " rh ";
    StripOfTrimmed("rh");
  }

  /** A missing count is written as 0, and the area is normalised. */
  lemma BlankCellIsZero()
    ensures Plan(Sheet(headers, [[Str(" rh "), Blank, Num(3)]])) == Outcome([Op("RH", "janeiro", 0, 3)], None)
  {
    var sheet := Sheet(headers, [[Str(" rh "), Blank, Num(3)]]);
    NamesOfHeaders();
    MonthsOfHeaders();
    JaneiroHeaders();
    OneRowOneMonth(sheet, "janeiro");
    HeaderPositions();
    RhArea();
    assert CellAt(sheet.rows[0], headers, "area") == Str(" rh ");
    assert CellAt(sheet.rows[0], headers, "janeiro em dia") == Blank;
    assert CellAt(sheet.rows[0], headers, "janeiro vencido") == Num(3);
  }

  /** A sheet of two rows and one month makes the two rows' steps, in order. */
  lemma TwoRowsOneMonth(sheet: Sheet, m: string)
    requires "area" in HeaderNames(sheet.headers) && BaseMonths(HeaderNames(sheet.headers)) == [m] && |sheet.rows| == 2
    ensures var cols := HeaderNames(sheet.headers);
      Plan(sheet) == Then(MonthStep(cols, sheet.rows[0], 0, RowArea(sheet.rows[0], cols), m),
        MonthStep(cols, sheet.rows[1], 1, RowArea(sheet.rows[1], cols), m))
  {
    var cols := HeaderNames(sheet.headers);
    var rows := sheet.rows;
    var first := MonthStep(cols, rows[0], 0, RowArea(rows[0], cols), m);
    var second := MonthStep(cols, rows[1], 1, RowArea(rows[1], cols), m);
    assert [m][..0] == [];
    ThenLaws(first, first, first);
    ThenLaws(second, second, second);
    assert MonthsPlan(cols, rows[0], 0, RowArea(rows[0], cols), [m]) == first;
    assert MonthsPlan(cols, rows[1], 1, RowArea(rows[1], cols), [m]) == second;
    assert RowsPlan(cols, [m], rows, 0, 0) == Outcome([], None);
    assert RowsPlan(cols, [m], rows, 0, 1) == first;
  }

  lemma JaneiroKey()
    ensures Normalize("janeiro") == "JANEIRO"
  {
    StripOfTrimmed("janeiro");
  }

  lemma RhKey()
    ensures Normalize("rh") == "RH" && Normalize("RH") == "RH"
  {
    StripOfTrimmed("rh");
    StripOfTrimmed("RH");
  }

  /** Two rows for the same area: the second row's counts are what the store keeps. */
  lemma LastRowKept()
    ensures var sheet := Sheet(headers, [[Str("rh"), Num(1), Num(2)], [Str("RH"), Num(5), Num(6)]]);
      Lookup(ApplyAll(State([], 0), Plan(sheet).ops).records, "RH", "JANEIRO") == Some((5, 6))
  {
    var sheet := Sheet(headers, [[Str("rh"), Num(1), Num(2)], [Str("RH"), Num(5), Num(6)]]);
    NamesOfHeaders();
    MonthsOfHeaders();
    JaneiroHeaders();
    HeaderPositions();
    RhKey();
    JaneiroKey();
    TwoRowsOneMonth(sheet, "janeiro");
    assert RowArea(sheet.rows[1], headers) == "RH";
    LaterRowWins(State([], 0), sheet, 1, "janeiro");
  }


}
