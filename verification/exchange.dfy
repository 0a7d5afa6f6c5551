/**
 * The export and the import side by side: the labels the export writes
 * (grafico.py:136-143) are read back by the import (grafico.py:236-247)
 * under the labels salvar_registro would store for the original record.
 * The counts do not make the round trip unchanged: the export also writes
 * the zero-filled cells of the pivot, and the import saves them as records.
 */
module Exchange {
  import opened Text
  import Export
  import opened BulkImport

  /** A title that, once stripped, is one non-empty word. */
  predicate OneWord(m: string) {
    Strip(m) != [] && forall k :: 0 <= k < |Strip(m)| ==> !IsSpace(Strip(m)[k])
  }

  /**
   * The header the import makes of an exported column "<title><suffix>",
   * where the suffix lower-cases to a space and a word: stripped and
   * lower-cased, it is the title lower-cased, the space and the word; its
   * first word is the lower-cased title, and it contains the word.
   */
  lemma HeaderOfLabel(title: string, suffix: string, word: string)
    requires title != [] && forall k :: 0 <= k < |title| ==> !IsSpace(title[k])
    requires Lower(suffix) == " " + word && word != [] && suffix[0] == ' ' && !IsSpace(suffix[|suffix| - 1])
    ensures Lower(Strip(title + suffix)) == Lower(title) + (" " + word)
    ensures FirstWord(Lower(title) + (" " + word)) == Lower(title)
    ensures Contains(Lower(title) + (" " + word), word)
  {
    var h := title + suffix;
    assert h[0] == title[0] && h[|h| - 1] == suffix[|suffix| - 1];
    StripOfTrimmed(h);
    LowerAppend(title, suffix);
    var lw := Lower(title);
    var e := lw + (" " + word);
    forall k | 0 <= k < |lw| ensures !IsSpace(lw[k]) {
      CaseAt(title, k);
    }
    assert e[|lw|] == ' ';
    var r := FirstWord(e);
    assert LeadingSpaces(e) == 0 by {
      assert !IsSpace(e[0]);
    }
    assert r == e[..|lw|];
    assert e[|lw| + 1..|lw| + 1 + |word|] == word;
    assert OccursAt(e, word, |lw| + 1);
  }

  /** The export's two suffixes, lower-cased, are the ones the import looks for. */
  lemma SuffixesLower()
    ensures Lower(" Em Dia") == " em dia" && Lower(" Vencido") == " vencido"
  {
    LowerInto(" Em Dia", " em dia");
    LowerInto(" Vencido", " vencido");
  }

  /** Each suffix is a space and then the word the import tests for. */
  lemma SuffixWords()
    ensures " " + "em dia" == " em dia" && " " + "vencido" == " vencido"
  {
  }

  /** The title-cased month the export writes is one word, and its lower-cased form normalises as the month does. */
  lemma ExportedTitle(m: string)
    requires OneWord(m)
    ensures var t := Title(Strip(m));
      t != [] && (forall k :: 0 <= k < |t| ==> !IsSpace(t[k]))
      && Lower(Lower(t)) == Lower(t) && Normalize(Lower(t)) == Normalize(m)
  {
    var w := Strip(m);
    var t := Title(w);
    forall k | 0 <= k < |t| ensures !IsSpace(t[k]) {
      TitleAfterAt(w, false, k);
    }
    var lw := Lower(t);
    LowerAbsorbs(t);
    forall k | 0 <= k < |lw| ensures !IsSpace(lw[k]) {
      CaseAt(t, k);
    }
    StripOfTrimmed(lw);
    UpperAbsorbs(t);
    UpperAbsorbs(w);
  }

  /**
   * A one-word month exported as "<Title> Em Dia" and "<Title> Vencido" is
   * found by the import as a month with both columns, and the month the
   * import passes to salvar_registro normalises to the record's own month.
   */
  lemma ExportedMonthReimports(m: string)
    requires OneWord(m)
    ensures var t := Export.ExportEntry(Store.Record(0, "", m, 0, 0)).mes;
      var e := Lower(Strip(Export.EmDiaLabel(t)));
      var v := Lower(Strip(Export.VencidoLabel(t)));
      && IsCountHeader(e) && IsCountHeader(v)
      && FirstWord(e) == FirstWord(v)
      && EmDiaHeader(FirstWord(e)) == e && VencidoHeader(FirstWord(e)) == v
      && Normalize(FirstWord(e)) == Normalize(m)
  {
    var t := Title(Strip(m));
    ExportedTitle(m);
    SuffixesLower();
    SuffixWords();
    HeaderOfLabel(t, " Em Dia", "em dia");
    HeaderOfLabel(t, " Vencido", "vencido");
    var e := Lower(Strip(Export.EmDiaLabel(t)));
    var v := Lower(Strip(Export.VencidoLabel(t)));
    assert e == Lower(t) + (" " + "em dia") && FirstWord(e) == Lower(t);
    assert v == Lower(t) + (" " + "vencido") && FirstWord(v) == Lower(t);
  }

  /** The area column the export writes, a normalised area, is read back as that same area. */
  lemma ExportedAreaReimports(area: string, row: seq<Cell>, cols: seq<string>)
    requires CellAt(row, cols, "area") == Str(Export.ExportEntry(Store.Record(0, area, "", 0, 0)).area)
    ensures RowArea(row, cols) == Normalize(area)
  {
    NormalizeIdempotent(area);
  }
}
