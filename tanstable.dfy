/** `extract_paragraphs_to_file` of tanstable.py: the aligned table with page markers of
    three line breaks followed by `"P<n>"`. This version sizes no rows. */
module TansTable {
  import opened Text
  import opened Blocks
  import opened Align

  /** The marker cell of page `n`: three line breaks, "P", the page number. */
  function Marker(n: nat): string {
    "\n\n\nP" + DecimalString(n)
  }

  /** Different pages get different markers, and no marker can be mistaken for a separator
      cell or a block text (it starts with a line break, which `strip()` would have removed). */
  lemma MarkersAreDelimiters()
    ensures MarkersDelimitPages(Marker)
  {
    forall p: nat, q: nat | Marker(p) == Marker(q) ensures p == q {
      assert Marker(p)[4..] == DecimalString(p);
      assert Marker(q)[4..] == DecimalString(q);
      DecimalInjective(p, q);
    }
    forall p: nat ensures Marker(p) != Separator && !IsStripped(Marker(p)) {
      assert Marker(p)[0] == '\n';
      assert |Marker(p)| > |Separator|;
    }
  }

  /** In the table, column A and column B each hold page `p`'s marker exactly in row
      `PageStart(p)`: the markers of a page are row-aligned. */
  lemma PageMarkerRows(ja: seq<seq<Block>>, en: seq<seq<Block>>, p: nat, k: nat)
    requires p < |ja| <= |en|
    requires k < |Table(ja, en, Marker, |ja|)|
    ensures Table(ja, en, Marker, |ja|)[k].ja == Some(Marker(p)) <==> k == PageStart(ja, en, p)
    ensures Table(ja, en, Marker, |ja|)[k].en == Some(Marker(p)) <==> k == PageStart(ja, en, p)
  {
    MarkersAreDelimiters();
    MarkerRows(ja, en, Marker, |ja|, p, k);
  }

  /** The whole function: align the two documents page by page. Fails, writing nothing,
      when the English document has fewer pages than the Japanese one. */
  method ExtractParagraphsToFile(ja: seq<seq<Block>>, en: seq<seq<Block>>) returns (r: Result<seq<Row>>)
    ensures |en| < |ja| ==> r == Failure(MissingEnglishPage(|en|))
    ensures |ja| <= |en| ==> r == Success(Table(ja, en, Marker, |ja|))
  {
    r := AlignDocuments(ja, en, Marker);
  }
}
