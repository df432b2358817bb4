/** The row-height estimate of the Excel sheet: for every cell, the number of lines its text
    takes when each `'\n'`-separated piece is word-wrapped greedily at an estimated number of
    characters per line; for every row, the largest count among its cells (at least 1). */
module RowLines {
  import opened Text
  import opened Align

  /** Characters on a line that holds words of lengths `g`, one space between words. */
  function LineLen(g: seq<nat>): nat {
    if g == [] then 0
    else if |g| == 1 then g[0]
    else LineLen(g[..|g| - 1]) + 1 + g[|g| - 1]
  }

  /** A line fits when it is at most `width` characters long, or holds a single word (a word
      longer than a line still gets a line of its own). */
  predicate Fits(g: seq<nat>, width: int) {
    |g| == 1 || LineLen(g) <= width
  }

  /** The word lengths of a layout, line after line. */
  function Flatten(lines: seq<seq<nat>>): seq<nat> {
    if lines == [] then [] else lines[0] + Flatten(lines[1..])
  }

  /** `lines` wraps the words of lengths `lens` greedily at `width`: every word is placed, in
      order; no line is empty or overfull; and a line ends only where its next word would
      not fit on it. */
  predicate IsGreedyLayout(lines: seq<seq<nat>>, lens: seq<nat>, width: int) {
    Flatten(lines) == lens &&
    (forall k :: 0 <= k < |lines| ==> lines[k] != [] && Fits(lines[k], width)) &&
    (forall k :: 0 < k < |lines| ==> LineLen(lines[k - 1]) + 1 + lines[k][0] > width)
  }

  /** Where the line that starts at word 0 ends, having taken words up to `j` so far. */
  function LineEnd(lens: seq<nat>, j: nat, width: int): (k: nat)
    requires 1 <= j <= |lens|
    requires Fits(lens[..j], width)
    ensures j <= k <= |lens|
    ensures Fits(lens[..k], width)
    ensures k < |lens| ==> LineLen(lens[..k]) + 1 + lens[k] > width
    decreases |lens| - j
  {
    if j < |lens| && LineLen(lens[..j]) + 1 + lens[j] <= width then
      assert lens[..j + 1][..j] == lens[..j];
      LineEnd(lens, j + 1, width)
    else j
  }

  /** The greedy layout, line by line from the first word: each line takes words while the
      next one still fits. */
  function Greedy(lens: seq<nat>, width: int): seq<seq<nat>>
    decreases |lens|
  {
    if lens == [] then []
    else
      var k := LineEnd(lens, 1, width);
      [lens[..k]] + Greedy(lens[k..], width)
  }

  lemma {:induction false} FlattenSnoc(lines: seq<seq<nat>>, g: seq<nat>)
    ensures Flatten(lines + [g]) == Flatten(lines) + g
  {
    if lines == [] {
      assert [] + [g] == [g];
    } else {
      assert (lines + [g])[1..] == lines[1..] + [g];
      FlattenSnoc(lines[1..], g);
    }
  }

  lemma {:induction false} LineLenSnoc(g: seq<nat>, w: nat)
    requires g != []
    ensures LineLen(g + [w]) == LineLen(g) + 1 + w
  {
    assert (g + [w])[..|g|] == g;
  }

  lemma {:induction false} LineLenPrefix(g: seq<nat>, m: nat)
    requires 1 <= m <= |g|
    ensures LineLen(g[..m]) <= LineLen(g)
    decreases |g|
  {
    if m < |g| {
      assert g[..|g| - 1][..m] == g[..m];
      LineLenPrefix(g[..|g| - 1], m);
    } else {
      assert g[..m] == g;
    }
  }

  /** Putting a fitting first line in front of a greedy layout of the rest. */
  lemma ConsLayout(g: seq<nat>, rest: seq<seq<nat>>, tail: seq<nat>, width: int)
    requires IsGreedyLayout(rest, tail, width)
    requires g != [] && Fits(g, width)
    requires rest != [] ==> LineLen(g) + 1 + tail[0] > width
    ensures IsGreedyLayout([g] + rest, g + tail, width)
  {
    var lines := [g] + rest;
    assert lines[1..] == rest;
    forall k | 0 < k < |lines| ensures LineLen(lines[k - 1]) + 1 + lines[k][0] > width {
      if k == 1 {
        assert rest[0] == Flatten(rest)[..|rest[0]|];
      } else {
        assert lines[k - 1] == rest[k - 2] && lines[k] == rest[k - 1];
      }
    }
  }

  /** The first line of a greedy layout is a prefix of the words, and the other lines are a
      greedy layout of the words after it. */
  lemma TailLayout(lines: seq<seq<nat>>, lens: seq<nat>, width: int)
    requires lines != [] && IsGreedyLayout(lines, lens, width)
    ensures |lines[0]| <= |lens| && lines[0] == lens[..|lines[0]|]
    ensures IsGreedyLayout(lines[1..], lens[|lines[0]|..], width)
    ensures |lines| > 1 ==> |lines[0]| < |lens| && lines[1][0] == lens[|lines[0]|]
  {
    var rest := lines[1..];
    assert lens == lines[0] + Flatten(rest);
    assert lens[|lines[0]|..] == Flatten(rest);
    forall k | 0 < k < |rest| ensures LineLen(rest[k - 1]) + 1 + rest[k][0] > width {
      assert rest[k - 1] == lines[k] && rest[k] == lines[k + 1];
    }
    if |lines| > 1 {
      assert rest[0] == Flatten(rest)[..|rest[0]|];
    }
  }

  /** The greedy reference layout satisfies the declarative description. */
  lemma {:induction false} GreedyIsLayout(lens: seq<nat>, width: int)
    ensures IsGreedyLayout(Greedy(lens, width), lens, width)
    decreases |lens|
  {
    if lens != [] {
      var k := LineEnd(lens, 1, width);
      var g, tail := lens[..k], lens[k..];
      var rest := Greedy(tail, width);
      assert Greedy(lens, width) == [g] + rest;
      GreedyIsLayout(tail, width);
      if rest != [] {
        assert k < |lens| && tail[0] == lens[k];
      }
      ConsLayout(g, rest, tail, width);
      assert g + tail == lens;
    }
  }

  /** One word alone is the greedy layout of itself. */
  lemma OneWordLayout(w: nat, width: int)
    ensures IsGreedyLayout([[w]], [w], width)
  {
    assert Flatten([[w]]) == [w] + Flatten([]);
  }

  lemma {:induction false} EmptyLayout(lines: seq<seq<nat>>, width: int)
    requires IsGreedyLayout(lines, [], width)
    ensures lines == []
  {
  }

  /** There is only one greedy layout: any two layouts satisfying the description agree,
      so the count of lines is determined by the word lengths and the width. */
  lemma {:induction false} LayoutUnique(a: seq<seq<nat>>, b: seq<seq<nat>>, lens: seq<nat>, width: int)
    requires IsGreedyLayout(a, lens, width) && IsGreedyLayout(b, lens, width)
    ensures a == b
    decreases |lens|
  {
    if lens == [] {
      EmptyLayout(a, width);
      EmptyLayout(b, width);
    } else {
      TailLayout(a, lens, width);
      TailLayout(b, lens, width);
      var g, h := a[0], b[0];
      FirstLineLongest(a, h, lens, width);
      FirstLineLongest(b, g, lens, width);
      assert g == h;
      LayoutUnique(a[1..], b[1..], lens[|g|..], width);
      assert a == [g] + a[1..] && b == [h] + b[1..];
    }
  }

  /** The first line of a greedy layout is at least as long as any fitting prefix `h` of
      the words: a shorter one would have ended where the next word still fit. */
  lemma FirstLineLongest(a: seq<seq<nat>>, h: seq<nat>, lens: seq<nat>, width: int)
    requires a != [] && IsGreedyLayout(a, lens, width)
    requires h != [] && Fits(h, width) && |h| <= |lens| && h == lens[..|h|]
    ensures |h| <= |a[0]|
  {
    TailLayout(a, lens, width);
    var g := a[0];
    var m := |g|;
    if m < |h| {
      assert Flatten(a[1..]) == lens[m..];
      assert lens[m..] != [];
      assert h[..m + 1] == g + [lens[m]];
      LineLenSnoc(g, lens[m]);
      LineLenPrefix(h, m + 1);
    }
  }

  /** Adding a word to the last line of a greedy layout, where it fits. */
  lemma ExtendLastLine(done: seq<seq<nat>>, cur: seq<nat>, lens: seq<nat>, w: nat, width: int)
    requires IsGreedyLayout(done + [cur], lens, width)
    requires cur != [] && LineLen(cur) + 1 + w <= width
    ensures IsGreedyLayout(done + [cur + [w]], lens + [w], width)
  {
    var lines := done + [cur + [w]];
    var prev := done + [cur];
    FlattenSnoc(done, cur);
    FlattenSnoc(done, cur + [w]);
    LineLenSnoc(cur, w);
    forall k | 0 <= k < |lines| ensures lines[k] != [] && Fits(lines[k], width) {
      if k < |done| {
        assert lines[k] == prev[k];
      }
    }
    forall k | 0 < k < |lines| ensures LineLen(lines[k - 1]) + 1 + lines[k][0] > width {
      assert lines[k - 1] == prev[k - 1];
      assert lines[k][0] == prev[k][0];
    }
  }

  /** Starting a new line with a word that does not fit on the last one. */
  lemma StartNewLine(done: seq<seq<nat>>, cur: seq<nat>, lens: seq<nat>, w: nat, width: int)
    requires IsGreedyLayout(done + [cur], lens, width)
    requires LineLen(cur) + 1 + w > width
    ensures IsGreedyLayout(done + [cur] + [[w]], lens + [w], width)
  {
    var prev := done + [cur];
    var lines := prev + [[w]];
    FlattenSnoc(prev, [w]);
    forall k | 0 <= k < |lines| ensures lines[k] != [] && Fits(lines[k], width) {
      if k < |prev| {
        assert lines[k] == prev[k];
      }
    }
    forall k | 0 < k < |lines| ensures LineLen(lines[k - 1]) + 1 + lines[k][0] > width {
      if k < |prev| {
        assert lines[k - 1] == prev[k - 1] && lines[k] == prev[k];
      }
    }
  }

  /** A layout of `n` words has between 1 and `n` lines. */
  lemma {:induction false} LayoutSize(lines: seq<seq<nat>>, lens: seq<nat>, width: int)
    requires IsGreedyLayout(lines, lens, width)
    ensures |lines| <= |lens|
    ensures lens != [] ==> |lines| >= 1
    decreases |lines|
  {
    if lines != [] {
      TailLayout(lines, lens, width);
      LayoutSize(lines[1..], lens[|lines[0]|..], width);
    }
  }

  /** The longest word length. */
  function Longest(lens: seq<nat>): (m: nat)
    ensures forall k :: 0 <= k < |lens| ==> lens[k] <= m
  {
    if lens == [] then 0 else Max(lens[0], Longest(lens[1..]))
  }

  /** No line of a greedy layout is longer than the width or, when a word is longer than
      that, than the longest word. */
  lemma {:induction false} LayoutLinesBounded(lines: seq<seq<nat>>, lens: seq<nat>, width: nat, k: nat)
    requires IsGreedyLayout(lines, lens, width)
    requires k < |lines|
    ensures LineLen(lines[k]) <= Max(width, Longest(lens))
    decreases k
  {
    TailLayout(lines, lens, width);
    if k == 0 {
      if |lines[0]| == 1 {
        assert lines[0][0] == lens[0];
      }
    } else {
      LayoutLinesBounded(lines[1..], lens[|lines[0]|..], width, k - 1);
      LongestSuffix(lens, |lines[0]|);
    }
  }

  lemma {:induction false} LongestSuffix(lens: seq<nat>, m: nat)
    requires m <= |lens|
    ensures Longest(lens[m..]) <= Longest(lens)
  {
    if m > 0 {
      assert lens[m..] == lens[1..][m - 1..];
      LongestSuffix(lens[1..], m - 1);
    }
  }

  /** The lengths of the words. */
  function WordLengths(words: seq<string>): (lens: seq<nat>)
    ensures |lens| == |words|
    ensures forall k :: 0 <= k < |words| ==> lens[k] == |words[k]|
  {
    if words == [] then [] else [|words[0]|] + WordLengths(words[1..])
  }

  /** Lines one `'\n'`-separated piece of a cell takes: one for a piece without words,
      otherwise the lines of its greedy layout. */
  function PieceLineCount(piece: string, width: int): nat {
    var words := Words(piece);
    if words == [] then 1 else |Greedy(WordLengths(words), width)|
  }

  /** The word loop for one piece: the first word opens a line, a word that fits after
      the current line joins it, any other word closes the line and opens the next; the
      open line is counted at the end. A piece without words counts one line. */
  method PieceLines(piece: string, width: int) returns (lines: nat)
    ensures lines == PieceLineCount(piece, width)
  {
    var words := Words(piece);
    if words == [] {
      return 1;
    }
    ghost var lens := WordLengths(words);
    ghost var done: seq<seq<nat>> := [];
    ghost var cur: seq<nat> := [];
    lines := 0;
    var curLen := 0;
    for i := 0 to |words|
      invariant lines == |done|
      invariant i == 0 ==> curLen == 0 && done == [] && cur == []
      invariant i > 0 ==> cur != [] && curLen == LineLen(cur) && curLen > 0 &&
                          IsGreedyLayout(done + [cur], lens[..i], width)
    {
      var wl := |words[i]|;
      assert lens[..i + 1] == lens[..i] + [wl];
      if curLen == 0 {
        OneWordLayout(wl, width);
        cur := [wl];
        assert done + [cur] == [[wl]] && lens[..i + 1] == [wl];
        curLen := wl;
      } else if curLen + 1 + wl <= width {
        ExtendLastLine(done, cur, lens[..i], wl, width);
        LineLenSnoc(cur, wl);
        cur := cur + [wl];
        curLen := curLen + 1 + wl;
      } else {
        StartNewLine(done, cur, lens[..i], wl, width);
        done := done + [cur];
        cur := [wl];
        lines := lines + 1;
        curLen := wl;
      }
    }
    if curLen > 0 {
      lines := lines + 1;
    }
    assert lens[..|words|] == lens;
    GreedyIsLayout(lens, width);
    LayoutUnique(done + [cur], Greedy(lens, width), lens, width);
  }

  /** A piece takes at least one line, exactly one when it is empty or all whitespace, and
      never more lines than it has words. */
  lemma PieceLineBounds(piece: string, width: int)
    ensures PieceLineCount(piece, width) >= 1
    ensures PieceLineCount(piece, width) <= Max(1, |Words(piece)|)
    ensures AllSpace(piece) ==> PieceLineCount(piece, width) == 1
  {
    WordsEmptyIff(piece);
    var words := Words(piece);
    if words != [] {
      GreedyIsLayout(WordLengths(words), width);
      LayoutSize(Greedy(WordLengths(words), width), WordLengths(words), width);
    }
  }

  /** Lines of the pieces, added up. */
  function SumLines(pieces: seq<string>, width: int): nat {
    if pieces == [] then 0
    else SumLines(pieces[..|pieces| - 1], width) + PieceLineCount(pieces[|pieces| - 1], width)
  }

  /** Lines a cell's text takes. */
  function CellLineCount(text: string, width: int): nat {
    SumLines(SplitOn(text, '\n'), width)
  }

  /** The piece loop for one cell: split the text at `'\n'` and add up the lines of each
      piece. */
  method CellLines(text: string, width: int) returns (lines: nat)
    ensures lines == CellLineCount(text, width)
  {
    var pieces := SplitOn(text, '\n');
    lines := 0;
    for i := 0 to |pieces|
      invariant lines == SumLines(pieces[..i], width)
    {
      var n := PieceLines(pieces[i], width);
      assert pieces[..i + 1][..i] == pieces[..i];
      lines := lines + n;
    }
    assert pieces[..|pieces|] == pieces;
  }

  lemma {:induction false} SumLinesAtLeast(pieces: seq<string>, width: int)
    ensures SumLines(pieces, width) >= |pieces|
  {
    if pieces != [] {
      SumLinesAtLeast(pieces[..|pieces| - 1], width);
      PieceLineBounds(pieces[|pieces| - 1], width);
    }
  }

  /** Every `'\n'`-separated piece adds at least one line, so a cell takes at least one line
      more than it has line breaks. */
  lemma CellLinesAtLeastPieces(text: string, width: int)
    ensures CellLineCount(text, width) >= Occurrences(text, '\n') + 1
  {
    SplitJoin(text, '\n');
    SumLinesAtLeast(SplitOn(text, '\n'), width);
  }

  /** Characters per line estimated for a column: the scaled column width, but never fewer
      than 10. */
  function CharsPerLine(scaled: int): (c: int)
    ensures c >= 10
    ensures c >= scaled && (c == 10 || c == scaled)
  {
    if scaled < 10 then 10 else scaled
  }

  /** Width of columns A and B of the sheet. */
  const ColumnWidth: int := 100

  /** `int(ColumnWidth * 1.8)`: the scaled width of columns A and B. */
  const ScaledWidth: int := 180

  /** Lines one cell takes, given with the scaled width of its column; an empty cell takes
      none. */
  function CellCount(cell: (Option<string>, int)): nat {
    if cell.0.None? then 0 else CellLineCount(cell.0.value, CharsPerLine(cell.1))
  }

  /** The largest `count` over `cells`, and at least 1. */
  function MaxLines<T>(cells: seq<T>, count: T -> nat): nat {
    if cells == [] then 1
    else Max(MaxLines(cells[..|cells| - 1], count), count(cells[|cells| - 1]))
  }

  /** The maximum is at least 1 and at least the count of every cell. */
  lemma {:induction false} MaxLinesBounds<T>(cells: seq<T>, count: T -> nat)
    ensures MaxLines(cells, count) >= 1
    ensures forall k :: 0 <= k < |cells| ==> MaxLines(cells, count) >= count(cells[k])
  {
    if cells != [] {
      var n := |cells| - 1;
      MaxLinesBounds(cells[..n], count);
      forall k | 0 <= k < n ensures MaxLines(cells, count) >= count(cells[k]) {
        assert cells[..n][k] == cells[k];
      }
    }
  }

  /** The maximum is 1 or the count of one of the cells. */
  lemma {:induction false} MaxLinesAttained<T>(cells: seq<T>, count: T -> nat)
    ensures MaxLines(cells, count) == 1 ||
      exists k :: 0 <= k < |cells| && MaxLines(cells, count) == count(cells[k])
  {
    if cells != [] {
      var n := |cells| - 1;
      var r := MaxLines(cells, count);
      MaxLinesAttained(cells[..n], count);
      if r != 1 && r != count(cells[n]) {
        var k :| 0 <= k < n && r == count(cells[..n][k]);
        assert cells[..n][k] == cells[k];
      }
    }
  }

  /** Lines the tallest cell of a row takes, and at least 1; each cell comes with the scaled
      width of its column. */
  function RowLineCount(cells: seq<(Option<string>, int)>): nat {
    MaxLines(cells, CellCount)
  }

  /** The cell loop of one row: start from one line and keep the largest count of the
      non-empty cells. */
  method RowMaxLines(cells: seq<(Option<string>, int)>) returns (maxLines: nat)
    ensures maxLines == RowLineCount(cells)
  {
    maxLines := 1;
    for i := 0 to |cells|
      invariant maxLines == MaxLines(cells[..i], CellCount)
    {
      assert cells[..i + 1][..i] == cells[..i];
      var (cell, scaled) := cells[i];
      if cell.None? {
        continue;
      }
      var text := cell.value;
      var estChars := CharsPerLine(scaled);
      var lines := CellLines(text, estChars);
      if lines > maxLines {
        maxLines := lines;
      }
    }
    assert cells[..|cells|] == cells;
  }

  /** The row count is at least 1 and at least the line count of every cell. */
  lemma RowLineCountBounds(cells: seq<(Option<string>, int)>)
    ensures RowLineCount(cells) >= 1
    ensures forall k :: 0 <= k < |cells| ==> RowLineCount(cells) >= CellCount(cells[k])
  {
    MaxLinesBounds(cells, CellCount);
  }

  /** The row count is 1 or the line count of one of the row's non-empty cells. */
  lemma RowLineCountAttained(cells: seq<(Option<string>, int)>)
    ensures RowLineCount(cells) == 1 ||
      exists k :: 0 <= k < |cells| && cells[k].0.Some? && RowLineCount(cells) == CellCount(cells[k])
  {
    MaxLinesBounds(cells, CellCount);
    MaxLinesAttained(cells, CellCount);
  }

  /** The rows of the written sheet: the header row, then the table; a sheet with no table
      has one empty row. */
  function SheetRows(table: seq<Row>): seq<Row> {
    if table == [] then [Row(None, None)] else [Row(Some("ja"), Some("en"))] + table
  }

  /** Lines one sheet row takes, columns A and B both at the scaled width. */
  function SheetRowLines(row: Row): nat {
    RowLineCount([(row.ja, ScaledWidth), (row.en, ScaledWidth)])
  }

  /** The line count of every row, in row order. */
  function SheetLineCounts(rows: seq<Row>): (counts: seq<nat>)
    ensures |counts| == |rows|
  {
    if rows == [] then [] else SheetLineCounts(rows[..|rows| - 1]) + [SheetRowLines(rows[|rows| - 1])]
  }

  lemma {:induction false} SheetLineCountsAt(rows: seq<Row>, j: nat)
    requires j < |rows|
    ensures SheetLineCounts(rows)[j] == SheetRowLines(rows[j])
  {
    var n := |rows| - 1;
    var before := SheetLineCounts(rows[..n]);
    assert SheetLineCounts(rows) == before + [SheetRowLines(rows[n])];
    if j < n {
      SheetLineCountsAt(rows[..n], j);
      assert rows[..n][j] == rows[j];
    }
  }

  /** The row loop: the line count of every row of the sheet, columns A and B both at the
      scaled width. */
  method SheetLines(table: seq<Row>) returns (counts: seq<nat>)
    ensures |counts| == |SheetRows(table)|
    ensures forall i :: 0 <= i < |counts| ==> counts[i] == SheetRowLines(SheetRows(table)[i])
  {
    var rows := SheetRows(table);
    counts := [];
    for i := 0 to |rows|
      invariant counts == SheetLineCounts(rows[..i])
    {
      var maxLines := RowMaxLines([(rows[i].ja, ScaledWidth), (rows[i].en, ScaledWidth)]);
      assert rows[..i + 1][..i] == rows[..i];
      counts := counts + [maxLines];
    }
    assert rows[..|rows|] == rows;
    forall i | 0 <= i < |counts|
      ensures counts[i] == SheetRowLines(rows[i])
    {
      SheetLineCountsAt(rows, i);
    }
  }
}
