/** The page aligner: for each page of the Japanese document, the Japanese and the English
    column of that page side by side (the shorter one padded with empty cells), the pages'
    blocks appended in page order. */
module Align {
  import opened Text
  import opened Blocks

  datatype Option<T> = None | Some(value: T)

  /** One table row: the Japanese cell and the English cell. `None` is an empty cell, where
      the shorter column of a page was padded. */
  datatype Row = Row(ja: Option<string>, en: Option<string>)

  /** Reading an English page that does not exist. */
  datatype AlignError = MissingEnglishPage(page: nat)

  datatype Result<T> = Success(value: T) | Failure(error: AlignError)

  function Max(a: nat, b: nat): nat {
    if a < b then b else a
  }

  /** Row `i` of a column, or an empty cell below its end. */
  function Cell(col: seq<string>, i: int): Option<string> {
    if 0 <= i < |col| then Some(col[i]) else None
  }

  /** Two columns joined side by side by row index: as many rows as the longer column. */
  function PageBlock(ja: seq<string>, en: seq<string>): seq<Row> {
    seq(Max(|ja|, |en|), i => Row(Cell(ja, i), Cell(en, i)))
  }

  /** The Japanese cells of the rows, top to bottom. */
  function JaCells(rows: seq<Row>): (cells: seq<Option<string>>)
    ensures |cells| == |rows|
  {
    if rows == [] then [] else [rows[0].ja] + JaCells(rows[1..])
  }

  /** The English cells of the rows, top to bottom. */
  function EnCells(rows: seq<Row>): (cells: seq<Option<string>>)
    ensures |cells| == |rows|
  {
    if rows == [] then [] else [rows[0].en] + EnCells(rows[1..])
  }

  /** A column written into cells. */
  function Filled(col: seq<string>): (cells: seq<Option<string>>)
    ensures |cells| == |col|
  {
    if col == [] then [] else [Some(col[0])] + Filled(col[1..])
  }

  /** `n` empty cells. */
  function Blank(n: nat): (cells: seq<Option<string>>)
    ensures |cells| == n
  {
    if n == 0 then [] else [None] + Blank(n - 1)
  }

  /** The contents of the non-empty cells, top to bottom. */
  function Present(cells: seq<Option<string>>): seq<string> {
    if cells == [] then []
    else (if cells[0].Some? then [cells[0].value] else []) + Present(cells[1..])
  }

  lemma {:induction false} PresentAppend(a: seq<Option<string>>, b: seq<Option<string>>)
    ensures Present(a + b) == Present(a) + Present(b)
  {
    if a == [] {
      assert a + b == b;
    } else {
      assert (a + b)[1..] == a[1..] + b;
      PresentAppend(a[1..], b);
    }
  }

  lemma {:induction false} PresentFilledBlank(col: seq<string>, n: nat)
    ensures Present(Filled(col) + Blank(n)) == col
  {
    PresentAppend(Filled(col), Blank(n));
    PresentFilled(col);
    PresentBlank(n);
  }

  lemma {:induction false} PresentFilled(col: seq<string>)
    ensures Present(Filled(col)) == col
  {
    if col != [] {
      PresentFilled(col[1..]);
    }
  }

  lemma {:induction false} PresentBlank(n: nat)
    ensures Present(Blank(n)) == []
  {
    if n > 0 {
      PresentBlank(n - 1);
    }
  }

  lemma {:induction false} JaCellsAt(rows: seq<Row>, i: nat)
    requires i < |rows|
    ensures JaCells(rows)[i] == rows[i].ja
  {
    if i > 0 {
      JaCellsAt(rows[1..], i - 1);
    }
  }

  lemma {:induction false} EnCellsAt(rows: seq<Row>, i: nat)
    requires i < |rows|
    ensures EnCells(rows)[i] == rows[i].en
  {
    if i > 0 {
      EnCellsAt(rows[1..], i - 1);
    }
  }

  lemma {:induction false} FilledBlankAt(col: seq<string>, n: nat, i: nat)
    requires i < |col| + n
    ensures (Filled(col) + Blank(n))[i] == Cell(col, i)
  {
    if i < |col| {
      FilledAt(col, i);
    } else {
      BlankAt(n, i - |col|);
    }
  }

  lemma {:induction false} FilledAt(col: seq<string>, i: nat)
    requires i < |col|
    ensures Filled(col)[i] == Some(col[i])
  {
    if i > 0 {
      FilledAt(col[1..], i - 1);
    }
  }

  lemma {:induction false} BlankAt(n: nat, i: nat)
    requires i < n
    ensures Blank(n)[i] == None
  {
    if i > 0 {
      BlankAt(n - 1, i - 1);
    }
  }

  /** A page block has as many rows as the longer column; column A is the Japanese column
      followed by empty cells, column B the English column followed by empty cells, so
      neither column loses or reorders a cell. */
  lemma PageBlockColumns(ja: seq<string>, en: seq<string>)
    ensures var rows := PageBlock(ja, en);
      |rows| == Max(|ja|, |en|) &&
      JaCells(rows) == Filled(ja) + Blank(|rows| - |ja|) &&
      EnCells(rows) == Filled(en) + Blank(|rows| - |en|)
  {
    PageBlockJa(ja, en);
    PageBlockEn(ja, en);
  }

  lemma PageBlockJa(ja: seq<string>, en: seq<string>)
    ensures var rows := PageBlock(ja, en); JaCells(rows) == Filled(ja) + Blank(|rows| - |ja|)
  {
    var rows := PageBlock(ja, en);
    var cells := Filled(ja) + Blank(|rows| - |ja|);
    forall i | 0 <= i < |rows| ensures JaCells(rows)[i] == cells[i] {
      JaCellsAt(rows, i);
      FilledBlankAt(ja, |rows| - |ja|, i);
    }
  }

  lemma PageBlockEn(ja: seq<string>, en: seq<string>)
    ensures var rows := PageBlock(ja, en); EnCells(rows) == Filled(en) + Blank(|rows| - |en|)
  {
    var rows := PageBlock(ja, en);
    var cells := Filled(en) + Blank(|rows| - |en|);
    forall i | 0 <= i < |rows| ensures EnCells(rows)[i] == cells[i] {
      EnCellsAt(rows, i);
      FilledBlankAt(en, |rows| - |en|, i);
    }
  }

  /** The block of page `p`: its Japanese column beside its English column. */
  function PageRowsOf(ja: seq<seq<Block>>, en: seq<seq<Block>>, marker: nat -> string, p: nat): seq<Row>
    requires p < |ja| && p < |en|
  {
    PageBlock(Column(marker(p), ja[p]), Column(marker(p), en[p]))
  }

  /** The page blocks of the first `n` pages, in page order. */
  function PageList(ja: seq<seq<Block>>, en: seq<seq<Block>>, marker: nat -> string, n: nat): seq<seq<Row>>
    requires n <= |ja| && n <= |en|
  {
    if n == 0 then [] else PageList(ja, en, marker, n - 1) + [PageRowsOf(ja, en, marker, n - 1)]
  }

  /** Blocks of rows appended one after the other. */
  function Join(blocks: seq<seq<Row>>): seq<Row> {
    if blocks == [] then [] else Join(blocks[..|blocks| - 1]) + blocks[|blocks| - 1]
  }

  /** The table after the first `n` pages. */
  function Table(ja: seq<seq<Block>>, en: seq<seq<Block>>, marker: nat -> string, n: nat): seq<Row>
    requires n <= |ja| && n <= |en|
  {
    Join(PageList(ja, en, marker, n))
  }

  lemma JoinSnoc(blocks: seq<seq<Row>>, rows: seq<Row>)
    ensures Join(blocks + [rows]) == Join(blocks) + rows
  {
    assert (blocks + [rows])[..|blocks|] == blocks;
  }

  /** Joining fewer leading blocks gives a prefix of the join. */
  lemma {:induction false} JoinPrefix(blocks: seq<seq<Row>>, m: nat)
    requires m <= |blocks|
    ensures Join(blocks[..m]) <= Join(blocks)
  {
    if m < |blocks| {
      var n := |blocks| - 1;
      assert blocks[..n][..m] == blocks[..m];
      JoinPrefix(blocks[..n], m);
    } else {
      assert blocks[..m] == blocks;
    }
  }

  /** Row `i` of block `p` is row `i` after the blocks before it. */
  lemma JoinRow(blocks: seq<seq<Row>>, p: nat, i: nat)
    requires p < |blocks| && i < |blocks[p]|
    ensures |Join(blocks[..p])| + i < |Join(blocks)|
    ensures Join(blocks)[|Join(blocks[..p])| + i] == blocks[p][i]
  {
    assert blocks[..p + 1] == blocks[..p] + [blocks[p]];
    JoinSnoc(blocks[..p], blocks[p]);
    JoinPrefix(blocks, p + 1);
    RowInPrefix(Join(blocks[..p]), blocks[p], Join(blocks), i);
  }

  /** Row `i` of a block appended after `before` is row `|before| + i` of any longer table. */
  lemma RowInPrefix(before: seq<Row>, rows: seq<Row>, whole: seq<Row>, i: nat)
    requires before + rows <= whole && i < |rows|
    ensures |before| + i < |whole| && whole[|before| + i] == rows[i]
  {
    assert (before + rows)[|before| + i] == rows[i];
  }

  lemma {:induction false} PageListPrefix(ja: seq<seq<Block>>, en: seq<seq<Block>>, marker: nat -> string, m: nat, n: nat)
    requires m <= n <= |ja| && n <= |en|
    ensures |PageList(ja, en, marker, n)| == n
    ensures PageList(ja, en, marker, n)[..m] == PageList(ja, en, marker, m)
  {
    if n > 0 {
      var before := PageList(ja, en, marker, n - 1);
      PageListPrefix(ja, en, marker, if m < n then m else n - 1, n - 1);
      assert PageList(ja, en, marker, n) == before + [PageRowsOf(ja, en, marker, n - 1)];
      if m < n {
        assert (before + [PageRowsOf(ja, en, marker, n - 1)])[..m] == before[..m];
      }
    }
  }

  lemma PageListAt(ja: seq<seq<Block>>, en: seq<seq<Block>>, marker: nat -> string, n: nat, p: nat)
    requires p < n <= |ja| && n <= |en|
    ensures p < |PageList(ja, en, marker, n)|
    ensures PageList(ja, en, marker, n)[p] == PageRowsOf(ja, en, marker, p)
  {
    PageListPrefix(ja, en, marker, p + 1, n);
    assert PageList(ja, en, marker, p + 1)[p] == PageRowsOf(ja, en, marker, p);
    assert PageList(ja, en, marker, n)[..p + 1][p] == PageList(ja, en, marker, n)[p];
  }

  /** Each page appends its block to the table of the pages before it. */
  lemma TableStep(ja: seq<seq<Block>>, en: seq<seq<Block>>, marker: nat -> string, n: nat)
    requires n < |ja| && n < |en|
    ensures Table(ja, en, marker, n + 1) == Table(ja, en, marker, n) + PageRowsOf(ja, en, marker, n)
  {
    JoinSnoc(PageList(ja, en, marker, n), PageRowsOf(ja, en, marker, n));
  }

  /** How many rows page `p` takes: one marker row and two rows per kept block of the side
      with more kept blocks. */
  function PageHeight(ja: seq<seq<Block>>, en: seq<seq<Block>>, p: nat): nat
    requires p < |ja| && p < |en|
  {
    1 + 2 * Max(|KeptTexts(ja[p])|, |KeptTexts(en[p])|)
  }

  /** The row where page `n` starts: the heights of the pages before it, added up. */
  function PageStart(ja: seq<seq<Block>>, en: seq<seq<Block>>, n: nat): nat
    requires n <= |ja| && n <= |en|
  {
    if n == 0 then 0 else PageStart(ja, en, n - 1) + PageHeight(ja, en, n - 1)
  }

  lemma PageRowsHeight(ja: seq<seq<Block>>, en: seq<seq<Block>>, marker: nat -> string, p: nat)
    requires p < |ja| && p < |en|
    ensures |PageRowsOf(ja, en, marker, p)| == PageHeight(ja, en, p)
  {
    ColumnLayout(marker(p), ja[p]);
    ColumnLayout(marker(p), en[p]);
  }

  /** The table of the first `n` pages ends where page `n` would start. */
  lemma {:induction false} TableLength(ja: seq<seq<Block>>, en: seq<seq<Block>>, marker: nat -> string, n: nat)
    requires n <= |ja| && n <= |en|
    ensures |Table(ja, en, marker, n)| == PageStart(ja, en, n)
  {
    if n > 0 {
      TableLength(ja, en, marker, n - 1);
      PageRowsHeight(ja, en, marker, n - 1);
      TableStep(ja, en, marker, n - 1);
    }
  }

  /** Pages are only ever appended: the table of fewer pages is a prefix of the table of
      more pages. */
  lemma TablePrefix(ja: seq<seq<Block>>, en: seq<seq<Block>>, marker: nat -> string, m: nat, n: nat)
    requires m <= n <= |ja| && n <= |en|
    ensures Table(ja, en, marker, m) <= Table(ja, en, marker, n)
  {
    PageListPrefix(ja, en, marker, m, n);
    JoinPrefix(PageList(ja, en, marker, n), m);
  }

  lemma PageRowAt(ja: seq<seq<Block>>, en: seq<seq<Block>>, marker: nat -> string, p: nat, i: nat)
    requires p < |ja| && p < |en|
    requires i < PageHeight(ja, en, p)
    ensures i < |PageRowsOf(ja, en, marker, p)|
    ensures PageRowsOf(ja, en, marker, p)[i] ==
      Row(Cell(Column(marker(p), ja[p]), i), Cell(Column(marker(p), en[p]), i))
  {
    PageRowsHeight(ja, en, marker, p);
  }

  lemma TableRowOfPage(ja: seq<seq<Block>>, en: seq<seq<Block>>, marker: nat -> string, n: nat, p: nat, i: nat)
    requires p < n <= |ja| && n <= |en|
    requires i < |PageRowsOf(ja, en, marker, p)|
    ensures PageStart(ja, en, p) + i < |Table(ja, en, marker, n)|
    ensures Table(ja, en, marker, n)[PageStart(ja, en, p) + i] == PageRowsOf(ja, en, marker, p)[i]
  {
    TableLength(ja, en, marker, p);
    PageListPrefix(ja, en, marker, p, n);
    PageListAt(ja, en, marker, n, p);
    JoinRow(PageList(ja, en, marker, n), p, i);
  }

  /** Row `i` of page `p`'s block sits at row `PageStart(p) + i` of the table, whatever the
      pages after it hold. */
  lemma TableRowAt(ja: seq<seq<Block>>, en: seq<seq<Block>>, marker: nat -> string, n: nat, p: nat, i: nat)
    requires p < n <= |ja| && n <= |en|
    requires i < PageHeight(ja, en, p)
    ensures PageStart(ja, en, p) + i < |Table(ja, en, marker, n)|
    ensures Table(ja, en, marker, n)[PageStart(ja, en, p) + i] ==
      Row(Cell(Column(marker(p), ja[p]), i), Cell(Column(marker(p), en[p]), i))
  {
    PageRowAt(ja, en, marker, p, i);
    TableRowOfPage(ja, en, marker, n, p, i);
  }

  /** Both markers of page `p` are in the same row: the first row of the page's block. */
  lemma MarkersShareRow(ja: seq<seq<Block>>, en: seq<seq<Block>>, marker: nat -> string, n: nat, p: nat)
    requires p < n <= |ja| && n <= |en|
    ensures PageStart(ja, en, p) < |Table(ja, en, marker, n)|
    ensures Table(ja, en, marker, n)[PageStart(ja, en, p)] == Row(Some(marker(p)), Some(marker(p)))
  {
    TableRowAt(ja, en, marker, n, p, 0);
  }

  /** Every row of the table belongs to exactly one page: row `k` is row `i` of page `q`'s
      block. */
  lemma {:induction false} RowPage(ja: seq<seq<Block>>, en: seq<seq<Block>>, marker: nat -> string, n: nat, k: nat)
    returns (q: nat, i: nat)
    requires n <= |ja| && n <= |en|
    requires k < |Table(ja, en, marker, n)|
    ensures q < n && i < PageHeight(ja, en, q) && k == PageStart(ja, en, q) + i
  {
    TableLength(ja, en, marker, n);
    assert n > 0;
    if k >= PageStart(ja, en, n - 1) {
      q, i := n - 1, k - PageStart(ja, en, n - 1);
    } else {
      TableLength(ja, en, marker, n - 1);
      q, i := RowPage(ja, en, marker, n - 1, k);
    }
  }

  /** Markers that delimit pages: distinct pages get distinct markers, and a marker is never
      the separator cell and never looks like a stripped text. */
  ghost predicate MarkersDelimitPages(marker: nat -> string) {
    (forall p: nat, q: nat :: marker(p) == marker(q) ==> p == q) &&
    (forall p: nat :: marker(p) != Separator && !IsStripped(marker(p)))
  }

  /** The cell at row `i` of a page column is `marker(q)` exactly at row 0. */
  lemma ColumnMarkerAt(marker: nat -> string, q: nat, p: nat, blocks: seq<Block>, i: nat)
    requires MarkersDelimitPages(marker)
    ensures Cell(Column(marker(q), blocks), i) == Some(marker(p)) <==> i == 0 && p == q
  {
    var col := Column(marker(q), blocks);
    ColumnLayout(marker(q), blocks);
    KeptTextsStripped(blocks);
    if 0 < i < |col| {
      TextCellNotMarker(col, KeptTexts(blocks), marker(p), i);
    }
  }

  /** Past row 0, a laid-out column holds only separators and stripped texts, so no cell
      there is a marker. */
  lemma TextCellNotMarker(col: seq<string>, ts: seq<string>, m: string, i: nat)
    requires |col| == 1 + 2 * |ts|
    requires forall k :: 0 <= k < |ts| ==> col[2 * k + 1] == Separator && col[2 * k + 2] == ts[k]
    requires forall k :: 0 <= k < |ts| ==> IsStripped(ts[k])
    requires m != Separator && !IsStripped(m)
    requires 0 < i < |col|
    ensures col[i] != m
  {
    var j := (i - 1) / 2;
    if i % 2 == 1 {
      assert i == 2 * j + 1;
    } else {
      assert i == 2 * j + 2;
    }
  }

  /** Column A holds page `p`'s marker in exactly one row, the first row of page `p`, and so
      does column B: the markers mark where each page starts in both columns. */
  lemma MarkerRows(ja: seq<seq<Block>>, en: seq<seq<Block>>, marker: nat -> string, n: nat, p: nat, k: nat)
    requires MarkersDelimitPages(marker)
    requires p < n <= |ja| && n <= |en|
    requires k < |Table(ja, en, marker, n)|
    ensures Table(ja, en, marker, n)[k].ja == Some(marker(p)) <==> k == PageStart(ja, en, p)
    ensures Table(ja, en, marker, n)[k].en == Some(marker(p)) <==> k == PageStart(ja, en, p)
  {
    var q, i := RowPage(ja, en, marker, n, k);
    TableRowAt(ja, en, marker, n, q, i);
    ColumnMarkerAt(marker, q, p, ja[q], i);
    ColumnMarkerAt(marker, q, p, en[q], i);
    if k == PageStart(ja, en, p) {
      MarkersShareRow(ja, en, marker, n, p);
    }
  }

  /** The Japanese columns of the first `n` pages, one after the other. */
  function JaColumns(ja: seq<seq<Block>>, marker: nat -> string, n: nat): seq<string>
    requires n <= |ja|
  {
    if n == 0 then [] else JaColumns(ja, marker, n - 1) + Column(marker(n - 1), ja[n - 1])
  }

  lemma {:induction false} JaCellsAppend(a: seq<Row>, b: seq<Row>)
    ensures JaCells(a + b) == JaCells(a) + JaCells(b)
  {
    if a == [] {
      assert a + b == b;
    } else {
      assert (a + b)[1..] == a[1..] + b;
      JaCellsAppend(a[1..], b);
    }
  }

  /** Column A of the table, its empty cells skipped, is every page's Japanese column in page
      order: padding only adds empty cells, and no text moves to another page. */
  lemma {:induction false} JaColumnIsPages(ja: seq<seq<Block>>, en: seq<seq<Block>>, marker: nat -> string, n: nat)
    requires n <= |ja| && n <= |en|
    ensures Present(JaCells(Table(ja, en, marker, n))) == JaColumns(ja, marker, n)
  {
    if n > 0 {
      var p := n - 1;
      var rows := PageRowsOf(ja, en, marker, p);
      var col := Column(marker(p), ja[p]);
      JaColumnIsPages(ja, en, marker, p);
      TableStep(ja, en, marker, p);
      JaCellsAppend(Table(ja, en, marker, p), rows);
      PresentAppend(JaCells(Table(ja, en, marker, p)), JaCells(rows));
      PageBlockColumns(col, Column(marker(p), en[p]));
      PresentFilledBlank(col, |rows| - |col|);
    }
  }

  /** The English columns of the first `n` pages, one after the other. */
  function EnColumns(en: seq<seq<Block>>, marker: nat -> string, n: nat): seq<string>
    requires n <= |en|
  {
    if n == 0 then [] else EnColumns(en, marker, n - 1) + Column(marker(n - 1), en[n - 1])
  }

  lemma {:induction false} EnCellsAppend(a: seq<Row>, b: seq<Row>)
    ensures EnCells(a + b) == EnCells(a) + EnCells(b)
  {
    if a == [] {
      assert a + b == b;
    } else {
      assert (a + b)[1..] == a[1..] + b;
      EnCellsAppend(a[1..], b);
    }
  }

  /** Column B of the table, its empty cells skipped, is every page's English column in page
      order, for the pages that have a Japanese counterpart. */
  lemma {:induction false} EnColumnIsPages(ja: seq<seq<Block>>, en: seq<seq<Block>>, marker: nat -> string, n: nat)
    requires n <= |ja| && n <= |en|
    ensures Present(EnCells(Table(ja, en, marker, n))) == EnColumns(en, marker, n)
  {
    if n > 0 {
      var p := n - 1;
      var rows := PageRowsOf(ja, en, marker, p);
      var col := Column(marker(p), en[p]);
      EnColumnIsPages(ja, en, marker, p);
      TableStep(ja, en, marker, p);
      EnCellsAppend(Table(ja, en, marker, p), rows);
      PresentAppend(EnCells(Table(ja, en, marker, p)), EnCells(rows));
      PageBlockColumns(Column(marker(p), ja[p]), col);
      PresentFilledBlank(col, |rows| - |col|);
    }
  }

  /** English pages past the last Japanese page do not reach the table. */
  lemma {:induction false} ExtraEnglishPagesIgnored(ja: seq<seq<Block>>, en: seq<seq<Block>>, marker: nat -> string, n: nat)
    requires n <= |ja| && n <= |en|
    ensures Table(ja, en, marker, n) == Table(ja, en[..n], marker, n)
  {
    if n > 0 {
      ExtraEnglishPagesIgnored(ja, en, marker, n - 1);
      TableAgrees(ja, en[..n], en[..n - 1], marker, n - 1);
      TableStep(ja, en, marker, n - 1);
      TableStep(ja, en[..n], marker, n - 1);
    }
  }

  lemma {:induction false} TableAgrees(ja: seq<seq<Block>>, en: seq<seq<Block>>, en': seq<seq<Block>>, marker: nat -> string, n: nat)
    requires n <= |ja| && n <= |en| && n <= |en'|
    requires en[..n] == en'[..n]
    ensures Table(ja, en, marker, n) == Table(ja, en', marker, n)
  {
    if n > 0 {
      assert en[n - 1] == en[..n][n - 1] == en'[n - 1];
      assert en[..n - 1] == en[..n][..n - 1];
      assert en'[..n - 1] == en'[..n][..n - 1];
      TableAgrees(ja, en, en', marker, n - 1);
      TableStep(ja, en, marker, n - 1);
      TableStep(ja, en', marker, n - 1);
    }
  }

  /** The page loop: for every page of the Japanese document, in order, build its column,
      read the English page with the same number, build that column and append the two side
      by side. An English document with fewer pages fails at its first missing page. */
  method AlignDocuments(ja: seq<seq<Block>>, en: seq<seq<Block>>, marker: nat -> string)
    returns (r: Result<seq<Row>>)
    ensures |en| < |ja| ==> r == Failure(MissingEnglishPage(|en|))
    ensures |ja| <= |en| ==> r == Success(Table(ja, en, marker, |ja|))
  {
    var table: seq<Row> := [];
    for n := 0 to |ja|
      invariant n <= |en|
      invariant table == Table(ja, en, marker, n)
    {
      var colJa := BuildColumn(marker(n), ja[n]);
      if n >= |en| {
        return Failure(MissingEnglishPage(n));
      }
      var colEn := BuildColumn(marker(n), en[n]);
      TableStep(ja, en, marker, n);
      table := table + PageBlock(colJa, colEn);
    }
    return Success(table);
  }
}
