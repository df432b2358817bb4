/** `extract_paragraphs_to_file` of transtable.py: the aligned table with page markers
    `"P<n>"` followed by three line breaks, and the estimated line count of every sheet row. */
module TransTable {
  import opened Text
  import opened Blocks
  import opened Align
  import opened RowLines

  /** The marker cell of page `n`: "P", the page number, three line breaks. */
  function Marker(n: nat): string {
    "P" + DecimalString(n) + "\n\n\n"
  }

  /** What the function leaves in the workbook: the table rows, and the line count each
      sheet row's height is computed from. */
  datatype Workbook = Workbook(table: seq<Row>, rowLines: seq<nat>)

  /** Different pages get different markers, and no marker can be mistaken for a separator
      cell or a block text (it ends with a line break, which `strip()` would have removed). */
  lemma MarkersAreDelimiters()
    ensures MarkersDelimitPages(Marker)
  {
    forall p: nat, q: nat | Marker(p) == Marker(q) ensures p == q {
      var m := Marker(p);
      assert m[1..|m| - 3] == DecimalString(p);
      assert Marker(q)[1..|Marker(q)| - 3] == DecimalString(q);
      DecimalInjective(p, q);
    }
    forall p: nat ensures Marker(p) != Separator && !IsStripped(Marker(p)) {
      var m := Marker(p);
      assert m[|m| - 1] == '\n';
      assert |m| > |Separator|;
    }
  }

  /** In the table, column A and column B each hold page `p`'s marker exactly in row
      `PageStart(p)`: both markers of a page sit in the row where that page starts. */
  lemma PageMarkerRows(ja: seq<seq<Block>>, en: seq<seq<Block>>, p: nat, k: nat)
    requires p < |ja| <= |en|
    requires k < |Table(ja, en, Marker, |ja|)|
    ensures Table(ja, en, Marker, |ja|)[k].ja == Some(Marker(p)) <==> k == PageStart(ja, en, p)
    ensures Table(ja, en, Marker, |ja|)[k].en == Some(Marker(p)) <==> k == PageStart(ja, en, p)
  {
    MarkersAreDelimiters();
    MarkerRows(ja, en, Marker, |ja|, p, k);
  }

  /** The whole function: align the two documents page by page, then estimate the lines of
      every row of the written sheet (header row included) for its height. Fails, writing
      nothing, when the English document has fewer pages than the Japanese one. */
  method ExtractParagraphsToFile(ja: seq<seq<Block>>, en: seq<seq<Block>>) returns (r: Result<Workbook>)
    ensures |en| < |ja| ==> r == Failure(MissingEnglishPage(|en|))
    ensures |ja| <= |en| ==> r.Success? && r.value.table == Table(ja, en, Marker, |ja|)
    ensures r.Success? ==>
      var rows := SheetRows(r.value.table);
      |r.value.rowLines| == |rows| &&
      forall i :: 0 <= i < |rows| ==>
        r.value.rowLines[i] == SheetRowLines(rows[i])
  {
    var aligned := AlignDocuments(ja, en, Marker);
    if aligned.Failure? {
      return Failure(aligned.error);
    }
    var counts := SheetLines(aligned.value);
    return Success(Workbook(aligned.value, counts));
  }
}
