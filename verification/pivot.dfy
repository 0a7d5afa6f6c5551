/**
 * pandas' `pivot_table(index='area', columns='mes', values=['em_dia',
 * 'vencido'], fill_value=0)` over long-format (area, month, counts) entries:
 * one row per distinct area, one pair of count columns per distinct month,
 * both in ascending order, and 0 where an (area, month) pair has no entry.
 */
module Pivot {
  import opened Order

  /** The two counts kept for an (area, month): on time ("em dia") and overdue ("vencido"). */
  datatype Count = Count(emDia: int, vencido: int)

  /** What `fill_value=0` puts in a cell with no entry. */
  const Zero := Count(0, 0)

  /** One long-format input row, labels already normalised by the caller. */
  datatype Entry = Entry(area: string, mes: string, count: Count)

  /** One output row: an area and its counts, aligned with the table's months. */
  datatype Row = Row(area: string, cells: seq<Count>)

  /** A wide table: the months of its columns and its rows. */
  datatype Table = Table(months: seq<string>, rows: seq<Row>)

  /** The areas of a table's rows, top to bottom. */
  function RowAreas(t: Table): (r: seq<string>)
    ensures |r| == |t.rows| && forall k :: 0 <= k < |t.rows| ==> r[k] == t.rows[k].area
  {
    seq(|t.rows|, k requires 0 <= k < |t.rows| => t.rows[k].area)
  }

  predicate HasKey(e: Entry, area: string, mes: string) {
    e.area == area && e.mes == mes
  }

  /** At most one entry per (area, month). */
  predicate OneEntryPerKey(es: seq<Entry>) {
    forall i, j :: 0 <= i < j < |es| ==> !HasKey(es[j], es[i].area, es[i].mes)
  }

  function AreasOf(es: seq<Entry>): (r: seq<string>)
    ensures |r| == |es| && forall i :: 0 <= i < |es| ==> r[i] == es[i].area
  {
    seq(|es|, i requires 0 <= i < |es| => es[i].area)
  }

  function MonthsOf(es: seq<Entry>): (r: seq<string>)
    ensures |r| == |es| && forall i :: 0 <= i < |es| ==> r[i] == es[i].mes
  {
    seq(|es|, i requires 0 <= i < |es| => es[i].mes)
  }

  /**
   * The counts of an (area, month) cell: those of the first entry with that
   * key, or zero when there is none.
   */
  function CellOf(es: seq<Entry>, area: string, mes: string): (c: Count)
    ensures (forall i :: 0 <= i < |es| ==> !HasKey(es[i], area, mes)) ==> c == Zero
    ensures (exists i :: 0 <= i < |es| && HasKey(es[i], area, mes)) ==>
      exists i :: 0 <= i < |es| && HasKey(es[i], area, mes) && c == es[i].count
        && forall k :: 0 <= k < i ==> !HasKey(es[k], area, mes)
  {
    if es == [] then Zero
    else if HasKey(es[0], area, mes) then es[0].count
    else
      var c := CellOf(es[1..], area, mes);
      assert (exists i :: 0 <= i < |es| && HasKey(es[i], area, mes)) ==>
        exists i :: 0 <= i < |es[1..]| && HasKey(es[1..][i], area, mes) by {
        if exists i :: 0 <= i < |es| && HasKey(es[i], area, mes) {
          var i :| 0 <= i < |es| && HasKey(es[i], area, mes);
          assert HasKey(es[1..][i - 1], area, mes);
        }
      }
      assert (exists i :: 0 <= i < |es[1..]| && HasKey(es[1..][i], area, mes)) ==>
        exists i :: 0 <= i < |es| && HasKey(es[i], area, mes) && c == es[i].count
          && forall k :: 0 <= k < i ==> !HasKey(es[k], area, mes) by {
        if exists i :: 0 <= i < |es[1..]| && HasKey(es[1..][i], area, mes) {
          var i :| 0 <= i < |es[1..]| && HasKey(es[1..][i], area, mes) && c == es[1..][i].count
            && forall k :: 0 <= k < i ==> !HasKey(es[1..][k], area, mes);
          assert HasKey(es[i + 1], area, mes) && c == es[i + 1].count;
          forall k | 0 <= k < i + 1 ensures !HasKey(es[k], area, mes) {
            if k > 0 { assert es[k] == es[1..][k - 1]; }
          }
        }
      }
      c
  }

  /** Under one entry per key, a cell holds exactly the counts of the entry with that key. */
  lemma CellOfUnique(es: seq<Entry>, i: int)
    requires OneEntryPerKey(es)
    requires 0 <= i < |es|
    ensures CellOf(es, es[i].area, es[i].mes) == es[i].count
  {
    var j :| 0 <= j < |es| && HasKey(es[j], es[i].area, es[i].mes) && CellOf(es, es[i].area, es[i].mes) == es[j].count
      && forall k :: 0 <= k < j ==> !HasKey(es[k], es[i].area, es[i].mes);
    assert j <= i;
    if j < i {
      assert !HasKey(es[i], es[j].area, es[j].mes);
    }
  }

  /**
   * The pivot: rows are the distinct areas, ascending; columns are the
   * distinct months, ascending; the cell of an area and a month is CellOf.
   */
  function PivotTable(es: seq<Entry>): (t: Table)
    ensures Sorted(t.months)
    ensures forall m :: m in t.months <==> exists i :: 0 <= i < |es| && es[i].mes == m
    ensures Sorted(RowAreas(t))
    ensures forall a :: a in RowAreas(t) <==> exists i :: 0 <= i < |es| && es[i].area == a
    ensures forall k :: 0 <= k < |t.rows| ==>
      |t.rows[k].cells| == |t.months|
      && forall j :: 0 <= j < |t.months| ==> t.rows[k].cells[j] == CellOf(es, t.rows[k].area, t.months[j])
  {
    var months := SortedDistinct(MonthsOf(es));
    var areas := SortedDistinct(AreasOf(es));
    var rows := seq(|areas|, i requires 0 <= i < |areas| =>
      Row(areas[i], seq(|months|, j requires 0 <= j < |months| => CellOf(es, areas[i], months[j]))));
    assert forall m :: m in MonthsOf(es) <==> exists i :: 0 <= i < |es| && es[i].mes == m by {
      forall m | m in MonthsOf(es) ensures exists i :: 0 <= i < |es| && es[i].mes == m {
        var i :| 0 <= i < |es| && MonthsOf(es)[i] == m;
      }
    }
    assert forall a :: a in AreasOf(es) <==> exists i :: 0 <= i < |es| && es[i].area == a by {
      forall a | a in AreasOf(es) ensures exists i :: 0 <= i < |es| && es[i].area == a {
        var i :| 0 <= i < |es| && AreasOf(es)[i] == a;
      }
    }
    assert RowAreas(Table(months, rows)) == areas;
    Table(months, rows)
  }

  /**
   * Under one entry per key, the pivot holds every entry's counts in the cell
   * of its area and month, and zero in every cell whose pair has no entry.
   */
  lemma PivotCells(es: seq<Entry>, k: int, j: int)
    requires OneEntryPerKey(es)
    requires 0 <= k < |PivotTable(es).rows|
    requires 0 <= j < |PivotTable(es).months|
    ensures var m := PivotTable(es).months[j]; var r := PivotTable(es).rows[k];
      && ((exists i :: 0 <= i < |es| && HasKey(es[i], r.area, m)) ==>
           exists i :: 0 <= i < |es| && HasKey(es[i], r.area, m) && r.cells[j] == es[i].count)
      && ((forall i :: 0 <= i < |es| ==> !HasKey(es[i], r.area, m)) ==> r.cells[j] == Zero)
  {
    var m := PivotTable(es).months[j];
    var r := PivotTable(es).rows[k];
    if exists i :: 0 <= i < |es| && HasKey(es[i], r.area, m) {
      var i :| 0 <= i < |es| && HasKey(es[i], r.area, m);
      CellOfUnique(es, i);
    }
  }
}
