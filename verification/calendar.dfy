/**
 * The twelve month names of the dashboard, in calendar order: the month
 * selectors (grafico.py:184) and the export's column order (grafico.py:146)
 * use the same list.
 */
module Calendar {
  import opened Text

  const MonthNames: seq<string> := ["Janeiro", "Fevereiro", "Março", "Abril", "Maio", "Junho",
    "Julho", "Agosto", "Setembro", "Outubro", "Novembro", "Dezembro"]

  /** No element occurs twice. */
  predicate Distinct(xs: seq<string>) {
    forall i, j :: 0 <= i < j < |xs| ==> xs[i] != xs[j]
  }

  /** The twelve month names are pairwise distinct. */
  lemma MonthNamesAreDistinct()
    ensures Distinct(MonthNames)
  {
    forall i, j | 0 <= i < j < |MonthNames| ensures MonthNames[i] != MonthNames[j] {
      var a, b := MonthNames[i], MonthNames[j];
      assert |a| != |b| || a[0] != b[0] || a[2] != b[2];
    }
  }

  /**
   * Distinct menu entries stay distinct once upper-cased, so two different
   * selections filter on two different stored months.
   */
  lemma MonthNamesUpperDistinct(i: int, j: int)
    requires 0 <= i < |MonthNames| && 0 <= j < |MonthNames| && i != j
    ensures Upper(MonthNames[i]) != Upper(MonthNames[j])
  {
    var a, b := MonthNames[i], MonthNames[j];
    assert |a| != |b| || UpperChar(a[0]) != UpperChar(b[0]) || UpperChar(a[2]) != UpperChar(b[2]);
    UpperDiffers(a, b);
  }

  /** Every month name is a capitalised word. */
  lemma MonthNameCapitalised(i: int)
    requires 0 <= i < |MonthNames|
    ensures Capitalised(MonthNames[i])
  {
    var m := MonthNames[i];
    assert IsUpperLetter(m[0]);
    forall k | 1 <= k < |m| ensures IsLowerLetter(m[k]) {
      assert ('a' <= m[k] <= 'z') || m[k] == '\U{E7}';
    }
  }

  /**
   * A month saved from the menu is stored normalised ("MARÇO"); stripped and
   * title-cased, as the export does, it is the menu name again ("Março"),
   * the name the export's column order looks for.
   */
  lemma TitleOfStoredMonth(i: int)
    requires 0 <= i < |MonthNames|
    ensures Title(Strip(Normalize(MonthNames[i]))) == MonthNames[i]
    ensures Title(Normalize(MonthNames[i])) == MonthNames[i]
  {
    var m := MonthNames[i];
    MonthNameCapitalised(i);
    NormalizeShape(m);
    StripOfTrimmed(Normalize(m));
    StripOfTrimmed(m);
    TitleOfUpper(m);
    TitleOfCapitalised(m);
  }

  /** Labels whose upper-case forms differ in length or at one of two positions. */
  lemma UpperDiffers(a: string, b: string)
    requires |a| > 2 && |b| > 2
    requires |a| != |b| || UpperChar(a[0]) != UpperChar(b[0]) || UpperChar(a[2]) != UpperChar(b[2])
    ensures Upper(a) != Upper(b)
  {
    CaseAt(a, 0);
    CaseAt(b, 0);
    CaseAt(a, 2);
    CaseAt(b, 2);
  }
}
