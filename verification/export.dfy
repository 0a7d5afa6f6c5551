/**
 * The all-months export of `exportar_para_excel_pivo` up to the column
 * selection that precedes the workbook writing (grafico.py:127-154): the
 * records are pivoted by area and title-cased month, the pivot's count
 * columns are labelled "<Mes> Em Dia" and "<Mes> Vencido", and the columns
 * are then put into calendar order, 'area' first.
 */
module Export {
  import opened Text
  import opened Order
  import opened Pivot
  import opened Store
  import opened Calendar

  /** One record after grafico.py:136-138: the month title-cased, the area upper-cased, both stripped. */
  function ExportEntry(r: Record): Entry {
    Entry(Normalize(r.area), Title(Strip(r.mes)), Count(r.emDia, r.vencido))
  }

  function ExportEntries(rs: seq<Record>): (es: seq<Entry>)
    ensures |es| == |rs| && forall k :: 0 <= k < |rs| ==> es[k] == ExportEntry(rs[k])
  {
    if rs == [] then [] else [ExportEntry(rs[0])] + ExportEntries(rs[1..])
  }

  /** The on-time column of a month in the export (grafico.py:143). */
  function EmDiaLabel(mes: string): string {
    mes + " Em Dia"
  }

  /** The overdue column of a month in the export (grafico.py:143). */
  function VencidoLabel(mes: string): string {
    mes + " Vencido"
  }

  /** An on-time label is never an overdue label, nor 'area'. */
  lemma LabelKindsDiffer(a: string, b: string)
    ensures EmDiaLabel(a) != VencidoLabel(b)
    ensures "area" != EmDiaLabel(a) && "area" != VencidoLabel(b)
  {
    var x, y := EmDiaLabel(a), VencidoLabel(b);
    if |x| == |y| {
      assert x[|x| - 1] == 'a' && y[|y| - 1] == 'o';
    }
  }

  /** The count labels of a list of months, month by month, on time before overdue. */
  function Labels(months: seq<string>): (cols: seq<string>)
    ensures |cols| == 2 * |months|
  {
    if months == [] then []
    else [EmDiaLabel(months[0]), VencidoLabel(months[0])] + Labels(months[1..])
  }

  /** Month j's labels sit at positions 2j and 2j+1. */
  lemma {:induction false} LabelsAt(months: seq<string>, j: int)
    requires 0 <= j < |months|
    ensures Labels(months)[2 * j] == EmDiaLabel(months[j])
    ensures Labels(months)[2 * j + 1] == VencidoLabel(months[j])
  {
    if j > 0 {
      LabelsAt(months[1..], j - 1);
    }
  }

  /** Every label belongs to some month, at the position of that month. */
  lemma LabelsMonth(months: seq<string>, p: int)
    requires 0 <= p < |Labels(months)|
    ensures Labels(months)[p] == if p % 2 == 0 then EmDiaLabel(months[p / 2]) else VencidoLabel(months[p / 2])
  {
    var j := p / 2;
    assert p == 2 * j + p % 2;
    LabelsAt(months, j);
  }

  lemma {:induction false} LabelsSnoc(months: seq<string>, mes: string)
    ensures Labels(months + [mes]) == Labels(months) + [EmDiaLabel(mes)] + [VencidoLabel(mes)]
  {
    if months != [] {
      assert (months + [mes])[1..] == months[1..] + [mes];
      LabelsSnoc(months[1..], mes);
    }
  }

  /** The columns of the pivot after `reset_index` (grafico.py:140-144). */
  function PivotColumns(t: Table): (cols: seq<string>)
    ensures |cols| == 1 + 2 * |t.months| && cols[0] == "area"
  {
    ["area"] + Labels(t.months)
  }

  /**
   * The pivot of the export (grafico.py:128-144), or None for an empty table
   * (grafico.py:132-134).
   */
  function ExportPivot(rs: seq<Record>): (r: Option<Table>)
    ensures r.None? <==> rs == []
  {
    if rs == [] then None else Some(PivotTable(ExportEntries(rs)))
  }

  /**
   * The export pivot's months are the stripped, title-cased months of the
   * records and its rows the normalised areas, each once, ascending.
   */
  lemma ExportPivotShape(rs: seq<Record>)
    requires rs != []
    ensures var t := ExportPivot(rs).value;
      && Sorted(t.months) && Sorted(RowAreas(t))
      && (forall m :: m in t.months <==> exists k :: 0 <= k < |rs| && Title(Strip(rs[k].mes)) == m)
      && (forall a :: a in RowAreas(t) <==> exists k :: 0 <= k < |rs| && Normalize(rs[k].area) == a)
  {
    var es := ExportEntries(rs);
    var t := PivotTable(es);
    forall m ensures m in t.months <==> exists k :: 0 <= k < |rs| && Title(Strip(rs[k].mes)) == m {
      if m in t.months {
        var i :| 0 <= i < |es| && es[i].mes == m;
        assert Title(Strip(rs[i].mes)) == m;
      }
      if exists k :: 0 <= k < |rs| && Title(Strip(rs[k].mes)) == m {
        var k :| 0 <= k < |rs| && Title(Strip(rs[k].mes)) == m;
        assert es[k].mes == m;
      }
    }
    forall a ensures a in RowAreas(t) <==> exists k :: 0 <= k < |rs| && Normalize(rs[k].area) == a {
      if a in RowAreas(t) {
        var i :| 0 <= i < |es| && es[i].area == a;
        assert Normalize(rs[i].area) == a;
      }
      if exists k :: 0 <= k < |rs| && Normalize(rs[k].area) == a {
        var k :| 0 <= k < |rs| && Normalize(rs[k].area) == a;
        assert es[k].area == a;
      }
    }
  }

  /** The elements of `xs` that occur in `cols`, in the order of `xs`. */
  function Restrict(xs: seq<string>, cols: seq<string>): (r: seq<string>)
    ensures |r| <= |xs|
    decreases |xs|
  {
    if xs == [] then []
    else Restrict(xs[..|xs| - 1], cols) + (if xs[|xs| - 1] in cols then [xs[|xs| - 1]] else [])
  }

  /** Restrict keeps exactly the elements of `xs` that occur in `cols`. */
  lemma {:induction false} RestrictMembers(xs: seq<string>, cols: seq<string>)
    ensures forall c :: c in Restrict(xs, cols) <==> c in xs && c in cols
    decreases |xs|
  {
    if xs != [] {
      RestrictMembers(xs[..|xs| - 1], cols);
      assert xs == xs[..|xs| - 1] + [xs[|xs| - 1]];
    }
  }

  /**
   * The positions in `xs` of the elements Restrict keeps: strictly
   * increasing, so Restrict keeps the order of `xs`.
   */
  function Kept(xs: seq<string>, cols: seq<string>): (idx: seq<int>)
    ensures |idx| == |Restrict(xs, cols)|
    ensures forall p :: 0 <= p < |idx| ==> 0 <= idx[p] < |xs| && Restrict(xs, cols)[p] == xs[idx[p]]
    ensures forall p, q :: 0 <= p < q < |idx| ==> idx[p] < idx[q]
    decreases |xs|
  {
    if xs == [] then []
    else
      var n := |xs| - 1;
      var idx := Kept(xs[..n], cols);
      assert forall p :: 0 <= p < |idx| ==> idx[p] < n;
      idx + (if xs[n] in cols then [n] else [])
  }

  /**
   * The column order of the export (grafico.py:146-152) for a month list, as
   * a function of the pivot's columns: 'area', then the month list's labels
   * that the pivot has, in the month list's order.
   */
  function OrderOf(months: seq<string>, cols: seq<string>): (r: seq<string>)
    ensures r != [] && r[0] == "area"
  {
    ["area"] + Restrict(Labels(months), cols)
  }

  /** The export's column order: the calendar month list `meses_ordem`. */
  function ExportOrder(cols: seq<string>): (r: seq<string>)
    ensures r != [] && r[0] == "area"
  {
    OrderOf(MonthNames, cols)
  }

  /** Restricting a concatenation restricts each part. */
  lemma {:induction false} RestrictAppend(xs: seq<string>, ys: seq<string>, cols: seq<string>)
    ensures Restrict(xs + ys, cols) == Restrict(xs, cols) + Restrict(ys, cols)
    decreases |ys|
  {
    if ys == [] {
      assert xs + ys == xs;
    } else {
      var n := |ys| - 1;
      assert (xs + ys)[..|xs + ys| - 1] == xs + ys[..n];
      assert (xs + ys)[|xs + ys| - 1] == ys[n];
      RestrictAppend(xs, ys[..n], cols);
    }
  }

  /**
   * `colunas_ordenadas` (grafico.py:147-152): 'area', then for each month of
   * the list its on-time and its overdue column, each only when the pivot
   * has it.
   */
  method OrderColumns(months: seq<string>, cols: seq<string>) returns (ordered: seq<string>)
    ensures ordered == OrderOf(months, cols)
  {
    ordered := ["area"];
    for k := 0 to |months|
      invariant ordered == ["area"] + Restrict(Labels(months[..k]), cols)
    {
      var mes := months[k];
      RestrictStep(months, k, cols);
      if EmDiaLabel(mes) in cols {
        ordered := ordered + [EmDiaLabel(mes)];
      }
      if VencidoLabel(mes) in cols {
        ordered := ordered + [VencidoLabel(mes)];
      }
    }
    assert months[..|months|] == months;
  }

  /** The export's column selection (grafico.py:146-154), over `meses_ordem`. */
  method ExportColumns(cols: seq<string>) returns (ordered: seq<string>)
    ensures ordered == ExportOrder(cols)
  {
    ordered := OrderColumns(MonthNames, cols);
  }

  /** One more month adds its labels that the pivot has, on time first. */
  lemma RestrictStep(months: seq<string>, k: int, cols: seq<string>)
    requires 0 <= k < |months|
    ensures var mes := months[k];
      Restrict(Labels(months[..k + 1]), cols) == Restrict(Labels(months[..k]), cols)
        + (if EmDiaLabel(mes) in cols then [EmDiaLabel(mes)] else [])
        + (if VencidoLabel(mes) in cols then [VencidoLabel(mes)] else [])
  {
    var mes := months[k];
    LabelsSnoc(months[..k], mes);
    assert months[..k + 1] == months[..k] + [mes];
    RestrictAppend(Labels(months[..k]), [EmDiaLabel(mes)], cols);
    RestrictAppend(Labels(months[..k]) + [EmDiaLabel(mes)], [VencidoLabel(mes)], cols);
  }

  /** The labels of a duplicate-free month list are pairwise distinct. */
  lemma LabelsDistinct(months: seq<string>, p: int, q: int)
    requires Distinct(months)
    requires 0 <= p < |Labels(months)| && 0 <= q < |Labels(months)| && p != q
    ensures Labels(months)[p] != Labels(months)[q]
  {
    var ls := Labels(months);
    var i, j := p / 2, q / 2;
    LabelsMonth(months, p);
    LabelsMonth(months, q);
    if p % 2 != q % 2 {
      LabelKindsDiffer(months[i], months[j]);
      LabelKindsDiffer(months[j], months[i]);
    } else if ls[p] == ls[q] {
      assert i != j;
      if p % 2 == 0 {
        SuffixCancels(months[i], months[j], " Em Dia");
      } else {
        SuffixCancels(months[i], months[j], " Vencido");
      }
    }
  }

  /**
   * The order keeps 'area' and exactly those columns of the pivot that carry
   * one of the list's months; any other column is dropped.
   */
  lemma OrderMembers(months: seq<string>, cols: seq<string>)
    ensures forall c :: c in OrderOf(months, cols) <==>
      c == "area" || (c in cols && exists i :: 0 <= i < |months| && (c == EmDiaLabel(months[i]) || c == VencidoLabel(months[i])))
  {
    var ls := Labels(months);
    RestrictMembers(ls, cols);
    forall c ensures c in ls <==> exists i :: 0 <= i < |months| && (c == EmDiaLabel(months[i]) || c == VencidoLabel(months[i])) {
      if c in ls {
        var p :| 0 <= p < |ls| && ls[p] == c;
        LabelsMonth(months, p);
      }
      if exists i :: 0 <= i < |months| && (c == EmDiaLabel(months[i]) || c == VencidoLabel(months[i])) {
        var i :| 0 <= i < |months| && (c == EmDiaLabel(months[i]) || c == VencidoLabel(months[i]));
        LabelsAt(months, i);
      }
    }
    assert OrderOf(months, cols) == ["area"] + Restrict(ls, cols);
  }

  /**
   * The order: a column of month i comes before every column of a later
   * month, a month's on-time column comes before its overdue one, and each
   * column appears once.
   */
  lemma OrderSorted(months: seq<string>, cols: seq<string>, p: int, q: int, i: int, j: int, x: string, y: string)
    requires Distinct(months)
    requires 0 < p < |OrderOf(months, cols)| && 0 < q < |OrderOf(months, cols)|
    requires 0 <= i < |months| && 0 <= j < |months|
    requires x == EmDiaLabel(months[i]) || x == VencidoLabel(months[i])
    requires y == EmDiaLabel(months[j]) || y == VencidoLabel(months[j])
    requires OrderOf(months, cols)[p] == x && OrderOf(months, cols)[q] == y
    ensures i < j ==> p < q
    ensures i == j && x == EmDiaLabel(months[i]) && y == VencidoLabel(months[i]) ==> p < q
    ensures x == y ==> p == q
  {
    var ls := Labels(months);
    var r := Restrict(ls, cols);
    var idx := Kept(ls, cols);
    assert OrderOf(months, cols)[p] == r[p - 1] && OrderOf(months, cols)[q] == r[q - 1];
    LabelsAt(months, i);
    LabelsAt(months, j);
    var u := if x == EmDiaLabel(months[i]) then 2 * i else 2 * i + 1;
    var v := if y == EmDiaLabel(months[j]) then 2 * j else 2 * j + 1;
    assert ls[u] == x && ls[v] == y;
    if idx[p - 1] != u { LabelsDistinct(months, idx[p - 1], u); }
    if idx[q - 1] != v { LabelsDistinct(months, idx[q - 1], v); }
    if x == y && u != v { LabelsDistinct(months, u, v); }
    if p > q { assert idx[q - 1] < idx[p - 1]; }
  }

  /** The selected columns all exist in the pivot, so `df_pivo[colunas_ordenadas]` (grafico.py:154) succeeds. */
  lemma ExportOrderSelects(t: Table)
    ensures forall c :: c in ExportOrder(PivotColumns(t)) ==> c in PivotColumns(t)
  {
    OrderMembers(MonthNames, PivotColumns(t));
  }

  /**
   * In the export, every column of month i comes before every column of a
   * later calendar month, on time before overdue, each column once.
   */
  lemma ExportOrderSorted(cols: seq<string>, p: int, q: int, i: int, j: int, x: string, y: string)
    requires 0 < p < |ExportOrder(cols)| && 0 < q < |ExportOrder(cols)|
    requires 0 <= i < |MonthNames| && 0 <= j < |MonthNames|
    requires x == EmDiaLabel(MonthNames[i]) || x == VencidoLabel(MonthNames[i])
    requires y == EmDiaLabel(MonthNames[j]) || y == VencidoLabel(MonthNames[j])
    requires ExportOrder(cols)[p] == x && ExportOrder(cols)[q] == y
    ensures i < j ==> p < q
    ensures i == j && x == EmDiaLabel(MonthNames[i]) && y == VencidoLabel(MonthNames[i]) ==> p < q
    ensures x == y ==> p == q
  {
    MonthNamesAreDistinct();
    OrderSorted(MonthNames, cols, p, q, i, j, x, y);
  }

  /**
   * The order's columns for a table of records: 'area', then the on-time and
   * overdue columns of exactly those months of the list that some record's
   * month, stripped and title-cased, names.
   */
  lemma OrderOfRecords(months: seq<string>, rs: seq<Record>, c: string)
    requires ExportPivot(rs).Some?
    ensures c in OrderOf(months, PivotColumns(ExportPivot(rs).value)) <==>
      c == "area" || (exists i, k :: 0 <= i < |months| && 0 <= k < |rs| && Title(Strip(rs[k].mes)) == months[i]
                                     && (c == EmDiaLabel(months[i]) || c == VencidoLabel(months[i])))
  {
    var t := ExportPivot(rs).value;
    var pc := PivotColumns(t);
    OrderMembers(months, pc);
    ExportPivotShape(rs);
    if c != "area" && c in OrderOf(months, pc) {
      var i :| 0 <= i < |months| && c in pc && (c == EmDiaLabel(months[i]) || c == VencidoLabel(months[i]));
      LabelIn(t, months[i]);
      var k :| 0 <= k < |rs| && Title(Strip(rs[k].mes)) == months[i];
    }
    if exists i, k :: 0 <= i < |months| && 0 <= k < |rs| && Title(Strip(rs[k].mes)) == months[i]
        && (c == EmDiaLabel(months[i]) || c == VencidoLabel(months[i])) {
      var i, k :| 0 <= i < |months| && 0 <= k < |rs| && Title(Strip(rs[k].mes)) == months[i]
        && (c == EmDiaLabel(months[i]) || c == VencidoLabel(months[i]));
      LabelIn(t, months[i]);
    }
  }

  /**
   * The export's columns for a table of records: 'area', then the on-time and
   * overdue columns of exactly those calendar months that some record's
   * month, stripped and title-cased, names; a record whose month is not one
   * of the twelve names contributes no column.
   */
  lemma ExportColumnsOfRecords(rs: seq<Record>, c: string)
    requires ExportPivot(rs).Some?
    ensures c in ExportOrder(PivotColumns(ExportPivot(rs).value)) <==>
      c == "area" || (exists i, k :: 0 <= i < |MonthNames| && 0 <= k < |rs| && Title(Strip(rs[k].mes)) == MonthNames[i]
                                     && (c == EmDiaLabel(MonthNames[i]) || c == VencidoLabel(MonthNames[i])))
  {
    OrderOfRecords(MonthNames, rs, c);
  }

  /**
   * A record whose month was saved from the menu (stored as the menu name
   * normalised, "MARÇO") has both of that month's columns exported, under
   * the menu name ("Março Em Dia", "Março Vencido").
   */
  lemma SavedMonthExported(rs: seq<Record>, k: int, i: int)
    requires ExportPivot(rs).Some?
    requires 0 <= k < |rs| && 0 <= i < |MonthNames| && rs[k].mes == Normalize(MonthNames[i])
    ensures EmDiaLabel(MonthNames[i]) in ExportOrder(PivotColumns(ExportPivot(rs).value))
    ensures VencidoLabel(MonthNames[i]) in ExportOrder(PivotColumns(ExportPivot(rs).value))
  {
    TitleOfStoredMonth(i);
    ExportColumnsOfRecords(rs, EmDiaLabel(MonthNames[i]));
    ExportColumnsOfRecords(rs, VencidoLabel(MonthNames[i]));
  }

  /** A month's labels are among the pivot's columns exactly when the month is. */
  lemma LabelIn(t: Table, mes: string)
    ensures EmDiaLabel(mes) in PivotColumns(t) <==> mes in t.months
    ensures VencidoLabel(mes) in PivotColumns(t) <==> mes in t.months
  {
    var pc := PivotColumns(t);
    var ls := Labels(t.months);
    assert pc == ["area"] + ls;
    LabelKindsDiffer(mes, mes);
    if EmDiaLabel(mes) in pc {
      var p :| 0 <= p < |ls| && ls[p] == EmDiaLabel(mes);
      var j := p / 2;
      LabelsMonth(t.months, p);
      if p % 2 == 1 {
        LabelKindsDiffer(mes, t.months[j]);
        assert false;
      }
      SuffixCancels(t.months[j], mes, " Em Dia");
    }
    if VencidoLabel(mes) in pc {
      var p :| 0 <= p < |ls| && ls[p] == VencidoLabel(mes);
      var j := p / 2;
      LabelsMonth(t.months, p);
      if p % 2 == 0 {
        LabelKindsDiffer(t.months[j], mes);
        assert false;
      }
      SuffixCancels(t.months[j], mes, " Vencido");
    }
    if mes in t.months {
      var j :| 0 <= j < |t.months| && t.months[j] == mes;
      LabelsAt(t.months, j);
    }
  }
}
