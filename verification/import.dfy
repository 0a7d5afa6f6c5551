/**
 * The spreadsheet import of the edit area (grafico.py:236-256): the headers
 * are stripped and lower-cased, the months are the first words of the count
 * headers, and every row is written, month by month, through
 * salvar_registro.
 *
 * The import is split in two. Plan computes, as a function of the sheet,
 * the salvar_registro calls the loops make and the error that ends them, if
 * any. The method Import runs the loops against a RecordStore and is proved
 * to leave the store as applying the planned calls in order would.
 */
module BulkImport {
  import opened Text
  import opened Order
  import opened Store

  /** A cell as read_excel delivers it: empty (NaN), an integer, or text. */
  datatype Cell = Blank | Num(n: int) | Str(s: string)

  /** The uploaded sheet: its header row and its data rows, cell by cell. */
  datatype Sheet = Sheet(headers: seq<string>, rows: seq<seq<Cell>>)

  /**
   * Why the import stops: no 'area' column (grafico.py:255-256), or a count
   * cell that int() rejects (grafico.py:250-251), by row and column.
   */
  datatype ImportError = MissingAreaColumn | BadCell(row: nat, column: string)

  /** The salvar_registro calls made, in order, and the error that stopped the import. */
  datatype Outcome = Outcome(ops: seq<Op>, error: Option<ImportError>)

  /** `df_importado.columns.str.strip().str.lower()` (grafico.py:236). */
  function HeaderNames(headers: seq<string>): (cols: seq<string>)
    ensures |cols| == |headers|
  {
    if headers == [] then [] else [Lower(Strip(headers[0]))] + HeaderNames(headers[1..])
  }

  /** Column k is header k, stripped and lower-cased. */
  lemma {:induction false} HeaderNamesAt(headers: seq<string>, k: int)
    requires 0 <= k < |headers|
    ensures HeaderNames(headers)[k] == Lower(Strip(headers[k]))
  {
    if k > 0 {
      HeaderNamesAt(headers[1..], k - 1);
    }
  }

  /** Every column name is lower-case. */
  lemma HeaderNamesLower(headers: seq<string>, c: string)
    requires c in HeaderNames(headers)
    ensures Lower(c) == c
  {
    var k :| 0 <= k < |HeaderNames(headers)| && HeaderNames(headers)[k] == c;
    HeaderNamesAt(headers, k);
    LowerAbsorbs(Strip(headers[k]));
  }

  /** The first position of `name` among the columns. */
  function IndexOf(cols: seq<string>, name: string): (r: Option<nat>)
    ensures r.Some? ==> r.value < |cols| && cols[r.value] == name
    ensures r.None? <==> name !in cols
    ensures r.Some? ==> forall k :: 0 <= k < r.value ==> cols[k] != name
  {
    if cols == [] then None
    else if cols[0] == name then Some(0)
    else match IndexOf(cols[1..], name)
      case Some(i) => Some(i + 1)
      case None => None
  }

  /** `row[name]`: the row's cell in that column, NaN where the row has none. */
  function CellAt(row: seq<Cell>, cols: seq<string>, name: string): Cell {
    match IndexOf(cols, name)
    case Some(i) => if i < |row| then row[i] else Blank
    case None => Blank
  }

  /** A header that counts for some month: `"em dia" in col or "vencido" in col` (grafico.py:239). */
  predicate IsCountHeader(c: string) {
    Contains(c, "em dia") || Contains(c, "vencido")
  }

  /** `[col.split()[0] for col in columns if ...]` (grafico.py:239). */
  function Candidates(cols: seq<string>): (r: seq<string>)
    ensures |r| <= |cols|
  {
    if cols == [] then []
    else (if IsCountHeader(cols[0]) then [FirstWord(cols[0])] else []) + Candidates(cols[1..])
  }

  /** The candidates are the first words of exactly the count headers. */
  lemma {:induction false} CandidatesMembers(cols: seq<string>, m: string)
    ensures m in Candidates(cols) <==> exists k :: 0 <= k < |cols| && IsCountHeader(cols[k]) && FirstWord(cols[k]) == m
  {
    if cols != [] {
      CandidatesMembers(cols[1..], m);
      if exists k :: 0 <= k < |cols| && IsCountHeader(cols[k]) && FirstWord(cols[k]) == m {
        var k :| 0 <= k < |cols| && IsCountHeader(cols[k]) && FirstWord(cols[k]) == m;
        if k > 0 {
          assert cols[1..][k - 1] == cols[k];
        }
      }
      if m in Candidates(cols[1..]) {
        var k :| 0 <= k < |cols| - 1 && IsCountHeader(cols[1..][k]) && FirstWord(cols[1..][k]) == m;
        assert cols[k + 1] == cols[1..][k];
      }
    }
  }

  /** `meses_base = sorted(set(meses_base))` (grafico.py:240). */
  function BaseMonths(cols: seq<string>): (r: seq<string>)
    ensures Sorted(r)
  {
    SortedDistinct(Candidates(cols))
  }

  /**
   * The import's months: the first words of the count headers, each once,
   * ascending.
   */
  lemma BaseMonthsMembers(cols: seq<string>, m: string)
    ensures m in BaseMonths(cols) <==> exists k :: 0 <= k < |cols| && IsCountHeader(cols[k]) && FirstWord(cols[k]) == m
  {
    CandidatesMembers(cols, m);
  }

  /** The on-time column of a month, `f"{mes.lower()} em dia"` (grafico.py:246). */
  function EmDiaHeader(mes: string): string {
    Lower(mes) + " em dia"
  }

  /** The overdue column of a month, `f"{mes.lower()} vencido"` (grafico.py:247). */
  function VencidoHeader(mes: string): string {
    Lower(mes) + " vencido"
  }

  /** A month is imported only when the sheet has both of its columns (grafico.py:249). */
  predicate Paired(cols: seq<string>, mes: string) {
    EmDiaHeader(mes) in cols && VencidoHeader(mes) in cols
  }

  /** `str(cell)`: text as it is, an integer in decimal, NaN as "nan". */
  function AreaText(c: Cell): string {
    match c
    case Str(s) => s
    case Num(n) => IntToString(n)
    case Blank => "nan"
  }

  /** `str(row["area"]).strip().upper()` (grafico.py:243). */
  function RowArea(row: seq<Cell>, cols: seq<string>): string {
    Normalize(AreaText(CellAt(row, cols, "area")))
  }

  /**
   * `int(cell) if not pd.isna(cell) else 0` (grafico.py:250-251): an empty
   * cell counts 0, text goes through int(), which can fail.
   */
  function CountOf(c: Cell): Option<int> {
    match c
    case Blank => Some(0)
    case Num(n) => Some(n)
    case Str(s) => ParseInt(s)
  }

  /** Runs `b` after `a`, unless `a` stopped with an error. */
  function Then(a: Outcome, b: Outcome): Outcome {
    if a.error.Some? then a else Outcome(a.ops + b.ops, b.error)
  }

  /** Then is associative, with the empty outcome as its unit. */
  lemma ThenLaws(a: Outcome, b: Outcome, c: Outcome)
    ensures Then(Then(a, b), c) == Then(a, Then(b, c))
    ensures Then(Outcome([], None), a) == a && Then(a, Outcome([], None)) == a
  {
    assert a.ops + [] == a.ops;
  }

  /** The body of the month loop for one month (grafico.py:246-253). */
  function MonthStep(cols: seq<string>, row: seq<Cell>, i: nat, area: string, mes: string): Outcome {
    if !Paired(cols, mes) then Outcome([], None)
    else match CountOf(CellAt(row, cols, EmDiaHeader(mes)))
      case None => Outcome([], Some(BadCell(i, EmDiaHeader(mes))))
      case Some(emDia) =>
        match CountOf(CellAt(row, cols, VencidoHeader(mes)))
        case None => Outcome([], Some(BadCell(i, VencidoHeader(mes))))
        case Some(vencido) => Outcome([Op(area, mes, emDia, vencido)], None)
  }

  /** The month loop over `ms` for row `i` (grafico.py:245-253). */
  function MonthsPlan(cols: seq<string>, row: seq<Cell>, i: nat, area: string, ms: seq<string>): Outcome
    decreases |ms|
  {
    if ms == [] then Outcome([], None)
    else Then(MonthsPlan(cols, row, i, area, ms[..|ms| - 1]), MonthStep(cols, row, i, area, ms[|ms| - 1]))
  }

  /** One row of the row loop (grafico.py:243-253). */
  function RowPlan(cols: seq<string>, months: seq<string>, rows: seq<seq<Cell>>, i: nat): Outcome
    requires i < |rows|
  {
    MonthsPlan(cols, rows[i], i, RowArea(rows[i], cols), months)
  }

  /** The row loop over rows lo..hi-1 (grafico.py:242-253). */
  function RowsPlan(cols: seq<string>, months: seq<string>, rows: seq<seq<Cell>>, lo: nat, hi: nat): Outcome
    requires lo <= hi <= |rows|
    decreases hi - lo
  {
    if hi == lo then Outcome([], None)
    else Then(RowsPlan(cols, months, rows, lo, hi - 1), RowPlan(cols, months, rows, hi - 1))
  }

  /** What the import of `sheet` does (grafico.py:236-256). */
  function Plan(sheet: Sheet): Outcome {
    var cols := HeaderNames(sheet.headers);
    if "area" !in cols then Outcome([], Some(MissingAreaColumn))
    else RowsPlan(cols, BaseMonths(cols), sheet.rows, 0, |sheet.rows|)
  }

  /** The month loop over `a + b` is the loop over `a`, then over `b`. */
  lemma {:induction false} MonthsPlanAppend(cols: seq<string>, row: seq<Cell>, i: nat, area: string, a: seq<string>, b: seq<string>)
    ensures MonthsPlan(cols, row, i, area, a + b) == Then(MonthsPlan(cols, row, i, area, a), MonthsPlan(cols, row, i, area, b))
    decreases |b|
  {
    var pa := MonthsPlan(cols, row, i, area, a);
    if b == [] {
      assert a + b == a;
      ThenLaws(pa, pa, pa);
    } else {
      var n := |b| - 1;
      assert (a + b)[..|a + b| - 1] == a + b[..n];
      MonthsPlanAppend(cols, row, i, area, a, b[..n]);
      ThenLaws(pa, MonthsPlan(cols, row, i, area, b[..n]), MonthStep(cols, row, i, area, b[n]));
    }
  }

  /** The row loop over lo..hi is the loop over lo..mid, then over mid..hi. */
  lemma {:induction false} RowsPlanSplit(cols: seq<string>, months: seq<string>, rows: seq<seq<Cell>>, lo: nat, mid: nat, hi: nat)
    requires lo <= mid <= hi <= |rows|
    ensures RowsPlan(cols, months, rows, lo, hi) ==
      Then(RowsPlan(cols, months, rows, lo, mid), RowsPlan(cols, months, rows, mid, hi))
    decreases hi - mid
  {
    var pl := RowsPlan(cols, months, rows, lo, mid);
    if hi == mid {
      ThenLaws(pl, pl, pl);
    } else {
      var pr := RowsPlan(cols, months, rows, mid, hi - 1);
      var last := RowPlan(cols, months, rows, hi - 1);
      assert RowsPlan(cols, months, rows, lo, hi) == Then(RowsPlan(cols, months, rows, lo, hi - 1), last);
      assert RowsPlan(cols, months, rows, mid, hi) == Then(pr, last);
      RowsPlanSplit(cols, months, rows, lo, mid, hi - 1);
      ThenLaws(pl, pr, last);
    }
  }

  /**
   * Every call the month loop makes is for the row's area and one of the
   * months, both of whose columns exist, with the counts its cells decode to.
   */
  lemma {:induction false} MonthsPlanOps(cols: seq<string>, row: seq<Cell>, i: nat, area: string, ms: seq<string>, k: int)
    requires 0 <= k < |MonthsPlan(cols, row, i, area, ms).ops|
    ensures var op := MonthsPlan(cols, row, i, area, ms).ops[k];
      && op.area == area && op.mes in ms && Paired(cols, op.mes)
      && CountOf(CellAt(row, cols, EmDiaHeader(op.mes))) == Some(op.emDia)
      && CountOf(CellAt(row, cols, VencidoHeader(op.mes))) == Some(op.vencido)
    decreases |ms|
  {
    var init := MonthsPlan(cols, row, i, area, ms[..|ms| - 1]);
    if k < |init.ops| {
      MonthsPlanOps(cols, row, i, area, ms[..|ms| - 1], k);
    }
  }

  /**
   * Every call the row loop makes over rows lo..hi-1 comes from one of those
   * rows: that row's area, a paired month, the counts its cells decode to.
   */
  lemma {:induction false} RowsPlanOps(cols: seq<string>, months: seq<string>, rows: seq<seq<Cell>>, lo: nat, hi: nat, k: int)
    requires lo <= hi <= |rows|
    requires 0 <= k < |RowsPlan(cols, months, rows, lo, hi).ops|
    ensures var op := RowsPlan(cols, months, rows, lo, hi).ops[k];
      exists j :: lo <= j < hi && op.area == RowArea(rows[j], cols) && op.mes in months && Paired(cols, op.mes)
        && CountOf(CellAt(rows[j], cols, EmDiaHeader(op.mes))) == Some(op.emDia)
        && CountOf(CellAt(rows[j], cols, VencidoHeader(op.mes))) == Some(op.vencido)
    decreases hi - lo
  {
    var whole := RowsPlan(cols, months, rows, lo, hi);
    var init := RowsPlan(cols, months, rows, lo, hi - 1);
    var row := RowPlan(cols, months, rows, hi - 1);
    assert whole == Then(init, row);
    var op := whole.ops[k];
    if k < |init.ops| {
      assert op == init.ops[k];
      RowsPlanOps(cols, months, rows, lo, hi - 1, k);
    } else {
      assert whole.ops == init.ops + row.ops;
      assert op == row.ops[k - |init.ops|];
      var j := hi - 1;
      MonthsPlanOps(cols, rows[j], j, RowArea(rows[j], cols), months, k - |init.ops|);
      assert lo <= j < hi && op.area == RowArea(rows[j], cols);
    }
  }

  /**
   * The month loop stops only at a paired month whose on-time or overdue
   * cell int() rejects, and reports that row and column.
   */
  lemma {:induction false} MonthsPlanError(cols: seq<string>, row: seq<Cell>, i: nat, area: string, ms: seq<string>)
    requires MonthsPlan(cols, row, i, area, ms).error.Some?
    ensures var e := MonthsPlan(cols, row, i, area, ms).error.value;
      exists mes :: mes in ms && Paired(cols, mes) && e.BadCell? && e.row == i &&
        ((e.column == EmDiaHeader(mes) && CountOf(CellAt(row, cols, EmDiaHeader(mes))).None?) ||
         (e.column == VencidoHeader(mes) && CountOf(CellAt(row, cols, VencidoHeader(mes))).None?))
    decreases |ms|
  {
    var init := MonthsPlan(cols, row, i, area, ms[..|ms| - 1]);
    if init.error.Some? {
      MonthsPlanError(cols, row, i, area, ms[..|ms| - 1]);
    } else {
      assert ms[|ms| - 1] in ms;
    }
  }

  /** The row loop stops only at a cell int() rejects, in one of its rows. */
  lemma {:induction false} RowsPlanError(cols: seq<string>, months: seq<string>, rows: seq<seq<Cell>>, lo: nat, hi: nat)
    requires lo <= hi <= |rows|
    requires RowsPlan(cols, months, rows, lo, hi).error.Some?
    ensures var e := RowsPlan(cols, months, rows, lo, hi).error.value;
      e.BadCell? && lo <= e.row < hi &&
      exists mes :: mes in months && Paired(cols, mes) &&
        ((e.column == EmDiaHeader(mes) && CountOf(CellAt(rows[e.row], cols, EmDiaHeader(mes))).None?) ||
         (e.column == VencidoHeader(mes) && CountOf(CellAt(rows[e.row], cols, VencidoHeader(mes))).None?))
    decreases hi - lo
  {
    var init := RowsPlan(cols, months, rows, lo, hi - 1);
    if init.error.Some? {
      RowsPlanError(cols, months, rows, lo, hi - 1);
    } else {
      MonthsPlanError(cols, rows[hi - 1], hi - 1, RowArea(rows[hi - 1], cols), months);
    }
  }

  /**
   * The import fails for want of an 'area' column exactly when no header
   * strips and lower-cases to 'area', and then writes nothing; any other
   * failure is a count cell that int() rejects, at a paired month's column.
   */
  lemma PlanErrors(sheet: Sheet)
    ensures var cols := HeaderNames(sheet.headers);
      Plan(sheet).error == Some(MissingAreaColumn) <==> "area" !in cols
    ensures Plan(sheet).error == Some(MissingAreaColumn) ==> Plan(sheet).ops == []
    ensures var cols := HeaderNames(sheet.headers);
      var e := Plan(sheet).error;
      e.Some? && "area" in cols ==>
        e.value.BadCell? && e.value.row < |sheet.rows| &&
        exists mes :: mes in BaseMonths(cols) && Paired(cols, mes) &&
          ((e.value.column == EmDiaHeader(mes) && CountOf(CellAt(sheet.rows[e.value.row], cols, EmDiaHeader(mes))).None?) ||
           (e.value.column == VencidoHeader(mes) && CountOf(CellAt(sheet.rows[e.value.row], cols, VencidoHeader(mes))).None?))
  {
    var cols := HeaderNames(sheet.headers);
    if "area" in cols && Plan(sheet).error.Some? {
      RowsPlanError(cols, BaseMonths(cols), sheet.rows, 0, |sheet.rows|);
    }
  }

  /**
   * Every call the import makes is for the normalised area of some row, a
   * month taken from the headers whose on-time and overdue columns both
   * exist, and the counts that row's cells decode to.
   */
  lemma PlanOps(sheet: Sheet, k: int)
    requires 0 <= k < |Plan(sheet).ops|
    ensures var cols := HeaderNames(sheet.headers);
      var op := Plan(sheet).ops[k];
      exists j :: 0 <= j < |sheet.rows| && op.area == RowArea(sheet.rows[j], cols)
        && op.mes in BaseMonths(cols) && Paired(cols, op.mes)
        && CountOf(CellAt(sheet.rows[j], cols, EmDiaHeader(op.mes))) == Some(op.emDia)
        && CountOf(CellAt(sheet.rows[j], cols, VencidoHeader(op.mes))) == Some(op.vencido)
  {
    var cols := HeaderNames(sheet.headers);
    RowsPlanOps(cols, BaseMonths(cols), sheet.rows, 0, |sheet.rows|, k);
  }

  /**
   * Row i within the whole row loop: when nothing fails, the calls split as
   * those of the rows before, those of row i, those of the later rows.
   */
  lemma RowAround(cols: seq<string>, months: seq<string>, rows: seq<seq<Cell>>, i: nat)
    requires i < |rows|
    requires RowsPlan(cols, months, rows, 0, |rows|).error.None?
    ensures RowPlan(cols, months, rows, i).error.None?
    ensures RowsPlan(cols, months, rows, i + 1, |rows|).error.None?
    ensures RowsPlan(cols, months, rows, 0, |rows|).ops == RowsPlan(cols, months, rows, 0, i).ops
      + RowPlan(cols, months, rows, i).ops + RowsPlan(cols, months, rows, i + 1, |rows|).ops
  {
    var n := |rows|;
    var before := RowsPlan(cols, months, rows, 0, i);
    var row := RowPlan(cols, months, rows, i);
    var later := RowsPlan(cols, months, rows, i + 1, n);
    RowsPlanSplit(cols, months, rows, 0, i, n);
    RowsPlanSplit(cols, months, rows, i, i + 1, n);
    ThenLaws(row, row, row);
    assert RowsPlan(cols, months, rows, i, i + 1) == row;
    ThenOk(row, later);
    ThenOk(before, Then(row, later));
  }

  /** A run without error makes the calls of both parts. */
  lemma ThenOk(a: Outcome, b: Outcome)
    requires Then(a, b).error.None?
    ensures a.error.None? && b.error.None? && Then(a, b).ops == a.ops + b.ops
  {
  }

  /**
   * Month t within the month loop of a row: when nothing fails, the calls
   * split as those of the months before, those of month t, those of the
   * later months.
   */
  lemma MonthAround(cols: seq<string>, row: seq<Cell>, i: nat, area: string, months: seq<string>, t: nat)
    requires t < |months|
    requires MonthsPlan(cols, row, i, area, months).error.None?
    ensures MonthStep(cols, row, i, area, months[t]).error.None?
    ensures MonthsPlan(cols, row, i, area, months[t + 1..]).error.None?
    ensures MonthsPlan(cols, row, i, area, months).ops == MonthsPlan(cols, row, i, area, months[..t]).ops
      + MonthStep(cols, row, i, area, months[t]).ops + MonthsPlan(cols, row, i, area, months[t + 1..]).ops
  {
    var step := MonthStep(cols, row, i, area, months[t]);
    assert months == months[..t] + ([months[t]] + months[t + 1..]);
    MonthsPlanAppend(cols, row, i, area, months[..t], [months[t]] + months[t + 1..]);
    MonthsPlanAppend(cols, row, i, area, [months[t]], months[t + 1..]);
    assert [months[t]][..0] == [];
    ThenLaws(step, step, step);
    assert MonthsPlan(cols, row, i, area, [months[t]]) == step;
  }

  /**
   * A month's step, within the month loop of row i, inside the whole row
   * loop: when nothing fails, the calls split as everything before the step,
   * the step's own calls, then the rest of row i and the later rows.
   */
  lemma PlanAround(cols: seq<string>, months: seq<string>, rows: seq<seq<Cell>>, i: nat, t: nat)
    requires i < |rows| && t < |months|
    requires RowsPlan(cols, months, rows, 0, |rows|).error.None?
    ensures var area := RowArea(rows[i], cols);
      var step := MonthStep(cols, rows[i], i, area, months[t]);
      && step.error.None?
      && RowsPlan(cols, months, rows, 0, |rows|).ops ==
        RowsPlan(cols, months, rows, 0, i).ops + MonthsPlan(cols, rows[i], i, area, months[..t]).ops
          + step.ops + (MonthsPlan(cols, rows[i], i, area, months[t + 1..]).ops + RowsPlan(cols, months, rows, i + 1, |rows|).ops)
  {
    var area := RowArea(rows[i], cols);
    RowAround(cols, months, rows, i);
    MonthAround(cols, rows[i], i, area, months, t);
    Regroup(RowsPlan(cols, months, rows, 0, i).ops, MonthsPlan(cols, rows[i], i, area, months[..t]).ops,
      MonthStep(cols, rows[i], i, area, months[t]).ops, MonthsPlan(cols, rows[i], i, area, months[t + 1..]).ops,
      RowsPlan(cols, months, rows, i + 1, |rows|).ops);
  }

  lemma Regroup(p: seq<Op>, h: seq<Op>, s: seq<Op>, t: seq<Op>, l: seq<Op>)
    ensures p + (h + s + t) + l == p + h + s + (t + l)
  {
  }

  /**
   * With no failure, every row writes every paired month, with the counts
   * its cells decode to: a missing cell writes 0.
   */
  lemma PlanComplete(sheet: Sheet, i: int, m: string)
    requires Plan(sheet).error.None?
    requires 0 <= i < |sheet.rows|
    requires m in BaseMonths(HeaderNames(sheet.headers)) && Paired(HeaderNames(sheet.headers), m)
    ensures var cols := HeaderNames(sheet.headers);
      var row := sheet.rows[i];
      var emDia := CountOf(CellAt(row, cols, EmDiaHeader(m)));
      var vencido := CountOf(CellAt(row, cols, VencidoHeader(m)));
      emDia.Some? && vencido.Some? && Op(RowArea(row, cols), m, emDia.value, vencido.value) in Plan(sheet).ops
  {
    var cols := HeaderNames(sheet.headers);
    var months := BaseMonths(cols);
    var t :| 0 <= t < |months| && months[t] == m;
    PlanAround(cols, months, sheet.rows, i, t);
    StepOp(cols, sheet.rows[i], i, RowArea(sheet.rows[i], cols), m);
  }

  /**
   * With no failure, every row writes every paired month with the counts its
   * cells hold: an empty cell as 0, a number as itself, and a text cell only
   * when int() accepts it, as the integer it spells.
   */
  lemma PlanCellCounts(sheet: Sheet, i: int, m: string)
    requires Plan(sheet).error.None?
    requires 0 <= i < |sheet.rows|
    requires m in BaseMonths(HeaderNames(sheet.headers)) && Paired(HeaderNames(sheet.headers), m)
    ensures var cols := HeaderNames(sheet.headers);
      var ce := CellAt(sheet.rows[i], cols, EmDiaHeader(m));
      var cv := CellAt(sheet.rows[i], cols, VencidoHeader(m));
      (ce.Str? ==> ParseInt(ce.s).Some?) && (cv.Str? ==> ParseInt(cv.s).Some?) &&
      exists op :: op in Plan(sheet).ops && op.area == RowArea(sheet.rows[i], cols) && op.mes == m
        && (ce.Blank? ==> op.emDia == 0) && (ce.Num? ==> op.emDia == ce.n) && (ce.Str? ==> ParseInt(ce.s) == Some(op.emDia))
        && (cv.Blank? ==> op.vencido == 0) && (cv.Num? ==> op.vencido == cv.n) && (cv.Str? ==> ParseInt(cv.s) == Some(op.vencido))
  {
    var cols := HeaderNames(sheet.headers);
    var row := sheet.rows[i];
    PlanComplete(sheet, i, m);
    var emDia := CountOf(CellAt(row, cols, EmDiaHeader(m)));
    var vencido := CountOf(CellAt(row, cols, VencidoHeader(m)));
    var op := Op(RowArea(row, cols), m, emDia.value, vencido.value);
    assert op in Plan(sheet).ops;
  }

  /** The first word of a lower-case text is a lower-case word, which normalising only upper-cases. */
  lemma FirstWordShape(c: string)
    requires Lower(c) == c
    ensures Lower(FirstWord(c)) == FirstWord(c) && Normalize(FirstWord(c)) == Upper(FirstWord(c))
  {
    var w := FirstWord(c);
    var a := LeadingSpaces(c);
    LowerSlice(c, a, a + |w|);
    if w != [] {
      assert !IsSpace(w[0]) && !IsSpace(w[|w| - 1]);
    }
    StripOfTrimmed(w);
  }

  /** The months of the import are lower-case words, so salvar_registro's normalisation only upper-cases them. */
  lemma BaseMonthShape(headers: seq<string>, m: string)
    requires m in BaseMonths(HeaderNames(headers))
    ensures Lower(m) == m && Normalize(m) == Upper(m)
  {
    var cols := HeaderNames(headers);
    BaseMonthsMembers(cols, m);
    var k :| 0 <= k < |cols| && IsCountHeader(cols[k]) && FirstWord(cols[k]) == m;
    HeaderNamesLower(headers, cols[k]);
    FirstWordShape(cols[k]);
  }

  /** The later months of a row write to other months than month t. */
  lemma LaterMonthsElsewhere(headers: seq<string>, row: seq<Cell>, i: nat, area: string, t: nat, k: int)
    requires t < |BaseMonths(HeaderNames(headers))|
    requires 0 <= k < |MonthsPlan(HeaderNames(headers), row, i, area, BaseMonths(HeaderNames(headers))[t + 1..]).ops|
    ensures var m := BaseMonths(HeaderNames(headers))[t];
      Normalize(MonthsPlan(HeaderNames(headers), row, i, area, BaseMonths(HeaderNames(headers))[t + 1..]).ops[k].mes) != Normalize(m)
  {
    var cols := HeaderNames(headers);
    var months := BaseMonths(cols);
    var m := months[t];
    var mes := MonthsPlan(cols, row, i, area, months[t + 1..]).ops[k].mes;
    MonthsPlanOps(cols, row, i, area, months[t + 1..], k);
    var u :| 0 <= u < |months[t + 1..]| && months[t + 1..][u] == mes;
    assert months[t + 1 + u] == mes;
    LessIrreflexive(m);
    assert m in months && mes in months;
    BaseMonthShape(headers, m);
    BaseMonthShape(headers, mes);
    if Normalize(mes) == Normalize(m) {
      UpperInjectiveOnLower(m, mes);
    }
  }

  /** The rows after row i write to other areas, when their areas differ from row i's. */
  lemma LaterRowsElsewhere(cols: seq<string>, months: seq<string>, rows: seq<seq<Cell>>, i: nat, k: int)
    requires i < |rows|
    requires forall j :: i < j < |rows| ==> RowArea(rows[j], cols) != RowArea(rows[i], cols)
    requires 0 <= k < |RowsPlan(cols, months, rows, i + 1, |rows|).ops|
    ensures Normalize(RowsPlan(cols, months, rows, i + 1, |rows|).ops[k].area) != RowArea(rows[i], cols)
  {
    RowsPlanOps(cols, months, rows, i + 1, |rows|, k);
    var op := RowsPlan(cols, months, rows, i + 1, |rows|).ops[k];
    var j :| i + 1 <= j < |rows| && op.area == RowArea(rows[j], cols);
    NormalizeIdempotent(AreaText(CellAt(rows[j], cols, "area")));
  }

  /** The step of a paired month that does not fail makes one call, with the decoded counts. */
  lemma StepOp(cols: seq<string>, row: seq<Cell>, i: nat, area: string, mes: string)
    requires Paired(cols, mes)
    requires MonthStep(cols, row, i, area, mes).error.None?
    ensures var emDia := CountOf(CellAt(row, cols, EmDiaHeader(mes)));
      var vencido := CountOf(CellAt(row, cols, VencidoHeader(mes)));
      emDia.Some? && vencido.Some? &&
      MonthStep(cols, row, i, area, mes).ops == [Op(area, mes, emDia.value, vencido.value)]
  {
  }

  /**
   * After month t of row i, neither the rest of row i nor the later rows
   * write to row i's area and month t, when the later rows' areas differ.
   */
  lemma NothingAfterWrites(headers: seq<string>, rows: seq<seq<Cell>>, i: nat, t: nat)
    requires i < |rows| && t < |BaseMonths(HeaderNames(headers))|
    requires forall j :: i < j < |rows| ==> RowArea(rows[j], HeaderNames(headers)) != RowArea(rows[i], HeaderNames(headers))
    ensures var cols := HeaderNames(headers);
      var months := BaseMonths(cols);
      var area := RowArea(rows[i], cols);
      var after := MonthsPlan(cols, rows[i], i, area, months[t + 1..]).ops + RowsPlan(cols, months, rows, i + 1, |rows|).ops;
      forall k :: 0 <= k < |after| ==> !WritesTo(after[k], area, Normalize(months[t]))
  {
    var cols := HeaderNames(headers);
    var months := BaseMonths(cols);
    var area := RowArea(rows[i], cols);
    var rest := MonthsPlan(cols, rows[i], i, area, months[t + 1..]).ops;
    var later := RowsPlan(cols, months, rows, i + 1, |rows|).ops;
    forall k | 0 <= k < |rest| ensures !WritesTo(rest[k], area, Normalize(months[t])) {
      LaterMonthsElsewhere(headers, rows[i], i, area, t, k);
    }
    forall k | 0 <= k < |later| ensures !WritesTo(later[k], area, Normalize(months[t])) {
      LaterRowsElsewhere(cols, months, rows, i, k);
    }
    NoWritesAppend(rest, later, area, Normalize(months[t]));
  }

  /** Two runs of calls that do not write to a key make one. */
  lemma NoWritesAppend(a: seq<Op>, b: seq<Op>, area: string, mes: string)
    requires forall k :: 0 <= k < |a| ==> !WritesTo(a[k], area, mes)
    requires forall k :: 0 <= k < |b| ==> !WritesTo(b[k], area, mes)
    ensures forall k :: 0 <= k < |a + b| ==> !WritesTo((a + b)[k], area, mes)
  {
    forall k | 0 <= k < |a + b| ensures !WritesTo((a + b)[k], area, mes) {
      if k < |a| {
        assert (a + b)[k] == a[k];
      } else {
        assert (a + b)[k] == b[k - |a|];
      }
    }
  }


  /**
   * Later rows overwrite earlier ones: when no later row has the same
   * normalised area, row i's counts for a paired month are what the store
   * holds for that area and month after a successful import.
   */
  lemma LaterRowWins(s: State, sheet: Sheet, i: int, m: string)
    requires Valid(s)
    requires Plan(sheet).error.None?
    requires 0 <= i < |sheet.rows|
    requires m in BaseMonths(HeaderNames(sheet.headers)) && Paired(HeaderNames(sheet.headers), m)
    requires forall j :: i < j < |sheet.rows| ==>
      RowArea(sheet.rows[j], HeaderNames(sheet.headers)) != RowArea(sheet.rows[i], HeaderNames(sheet.headers))
    ensures var cols := HeaderNames(sheet.headers);
      var row := sheet.rows[i];
      var emDia := CountOf(CellAt(row, cols, EmDiaHeader(m)));
      var vencido := CountOf(CellAt(row, cols, VencidoHeader(m)));
      emDia.Some? && vencido.Some? &&
      Lookup(ApplyAll(s, Plan(sheet).ops).records, RowArea(row, cols), Normalize(m)) == Some((emDia.value, vencido.value))
  {
    var cols := HeaderNames(sheet.headers);
    var months := BaseMonths(cols);
    var rows := sheet.rows;
    var area := RowArea(rows[i], cols);
    var key := Normalize(m);
    var t :| 0 <= t < |months| && months[t] == m;
    PlanAround(cols, months, rows, i, t);
    StepOp(cols, rows[i], i, area, m);
    NothingAfterWrites(sheet.headers, rows, i, t);
    var step := MonthStep(cols, rows[i], i, area, m);
    var op := step.ops[0];
    NormalizeIdempotent(AreaText(CellAt(rows[i], cols, "area")));
    assert WritesTo(op, area, key);
    LastWriteAt(RowsPlan(cols, months, rows, 0, i).ops + MonthsPlan(cols, rows[i], i, area, months[..t]).ops, op,
      MonthsPlan(cols, rows[i], i, area, months[t + 1..]).ops + RowsPlan(cols, months, rows, i + 1, |rows|).ops, area, key);
    ApplyAllLookup(s, Plan(sheet).ops, area, key);
  }

  /** The month loop over months[..j + 1] runs month j after the months before it. */
  lemma MonthsPlanStep(cols: seq<string>, row: seq<Cell>, i: nat, area: string, months: seq<string>, j: int)
    requires 0 <= j < |months|
    ensures MonthsPlan(cols, row, i, area, months[..j + 1]) ==
      Then(MonthsPlan(cols, row, i, area, months[..j]), MonthStep(cols, row, i, area, months[j]))
  {
    assert months[..j + 1][..j] == months[..j];
  }

  /** When month j fails, the month loop stops there, having made exactly the calls before it. */
  lemma MonthsPlanStops(cols: seq<string>, row: seq<Cell>, i: nat, area: string, months: seq<string>, j: int)
    requires 0 <= j < |months|
    requires MonthsPlan(cols, row, i, area, months[..j]).error.None?
    requires MonthStep(cols, row, i, area, months[j]).error.Some?
    ensures MonthsPlan(cols, row, i, area, months) ==
      Outcome(MonthsPlan(cols, row, i, area, months[..j]).ops, MonthStep(cols, row, i, area, months[j]).error)
  {
    assert months == months[..j + 1] + months[j + 1..];
    MonthsPlanAppend(cols, row, i, area, months[..j + 1], months[j + 1..]);
    MonthsPlanStep(cols, row, i, area, months, j);
  }

  /** When row i fails, the row loop stops there, having made exactly the calls up to the failure. */
  lemma RowsPlanStops(cols: seq<string>, months: seq<string>, rows: seq<seq<Cell>>, i: nat)
    requires i < |rows|
    requires RowsPlan(cols, months, rows, 0, i).error.None?
    requires RowPlan(cols, months, rows, i).error.Some?
    ensures RowsPlan(cols, months, rows, 0, |rows|) ==
      Outcome(RowsPlan(cols, months, rows, 0, i).ops + RowPlan(cols, months, rows, i).ops, RowPlan(cols, months, rows, i).error)
  {
    RowsPlanSplit(cols, months, rows, 0, i + 1, |rows|);
  }

  /**
   * The month loop of one row (grafico.py:245-253): the store ends as
   * applying the row's planned calls in order would, and the loop reports
   * the row's planned error.
   */
  method ImportRow(store: RecordStore, cols: seq<string>, months: seq<string>, row: seq<Cell>, i: nat, area: string)
    returns (error: Option<ImportError>)
    modifies store
    ensures error == MonthsPlan(cols, row, i, area, months).error
    ensures store.Snapshot() == ApplyAll(old(store.Snapshot()), MonthsPlan(cols, row, i, area, months).ops)
  {
    ghost var s0 := store.Snapshot();
    for j := 0 to |months|
      invariant MonthsPlan(cols, row, i, area, months[..j]).error.None?
      invariant store.Snapshot() == ApplyAll(s0, MonthsPlan(cols, row, i, area, months[..j]).ops)
    {
      var mes := months[j];
      MonthsPlanStep(cols, row, i, area, months, j);
      if EmDiaHeader(mes) in cols && VencidoHeader(mes) in cols {
        var emDia := CountOf(CellAt(row, cols, EmDiaHeader(mes)));
        if emDia.None? {
          MonthsPlanStops(cols, row, i, area, months, j);
          return Some(BadCell(i, EmDiaHeader(mes)));
        }
        var vencido := CountOf(CellAt(row, cols, VencidoHeader(mes)));
        if vencido.None? {
          MonthsPlanStops(cols, row, i, area, months, j);
          return Some(BadCell(i, VencidoHeader(mes)));
        }
        store.Save(area, mes, emDia.value, vencido.value);
        ApplyAllSnoc(s0, MonthsPlan(cols, row, i, area, months[..j]).ops, Op(area, mes, emDia.value, vencido.value));
      } else {
        var done := MonthsPlan(cols, row, i, area, months[..j]);
        ThenLaws(done, done, done);
      }
    }
    assert months[..|months|] == months;
    error := None;
  }

  /**
   * The import (grafico.py:236-256): the rows in order, and within a row the
   * months in order, each written through salvar_registro; the store ends as
   * applying the planned calls in order would, and the import reports the
   * planned error. Calls made before a failing cell stay applied.
   */
  method Import(store: RecordStore, sheet: Sheet) returns (error: Option<ImportError>)
    modifies store
    ensures error == Plan(sheet).error
    ensures store.Snapshot() == ApplyAll(old(store.Snapshot()), Plan(sheet).ops)
  {
    var cols := HeaderNames(sheet.headers);
    if "area" !in cols {
      return Some(MissingAreaColumn);
    }
    var months := BaseMonths(cols);
    var rows := sheet.rows;
    ghost var s0 := store.Snapshot();
    var i := 0;
    while i < |rows|
      invariant 0 <= i <= |rows|
      invariant RowsPlan(cols, months, rows, 0, i).error.None?
      invariant store.Snapshot() == ApplyAll(s0, RowsPlan(cols, months, rows, 0, i).ops)
    {
      var area := Normalize(AreaText(CellAt(rows[i], cols, "area")));
      error := ImportRow(store, cols, months, rows[i], i, area);
      ApplyAllAppend(s0, RowsPlan(cols, months, rows, 0, i).ops, RowPlan(cols, months, rows, i).ops);
      if error.Some? {
        RowsPlanStops(cols, months, rows, i);
        return;
      }
      i := i + 1;
    }
    error := None;
  }
}
