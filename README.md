# Bilingual table builder: a Dafny model

The repository is a small Streamlit app in two versions, `transtable.py` and `tanstable.py`. It
takes a Japanese and an English PDF of the same report and writes an Excel sheet. Column A
("ja") holds the Japanese text blocks and column B ("en") the English ones. The rows are
grouped by page, and each page starts with a page-marker cell. Both versions have one function,
`extract_paragraphs_to_file`. This project models what it computes:

- **Column builder** (`blocks.dfy`, module `Blocks`). A page is a sequence of blocks
  `(x0, y0, x1, y1, text, block_no, block_type)`, in the order the PDF library returns them. A
  block is kept when it is a text block (`block_type == 0`) and its stripped text is not empty.
  The page's column is the marker cell, then a `"\n"` cell and the stripped text for every kept
  block, in block order. `BuildColumn` is the block loop, proved equal to the specification
  function `Column`.
- **Page aligner** (`align.dfy`, module `Align`). For every page of the Japanese document, in
  page order, the Japanese and English columns of that page go side by side. The shorter column
  is padded with empty cells (`None`), as `pd.concat(axis=1)` does. The blocks are then appended
  one after another (`pd.concat(ignore_index=True)`). `AlignDocuments` is the page loop. It reads
  the English page with the same number. When the English document is shorter, it fails at the
  first missing page, where Python raises `IndexError`.
- **Row-line estimator** (`rowlines.dfy`, module `RowLines`, `transtable.py` only). This is the
  greedy word-wrap simulation used for row heights. A cell's text is split at `'\n'`, and each
  piece is split into words. Words are packed into lines of at most `est_chars_per_line`
  characters with single spaces between them, and a piece without words counts one line. A row
  takes the largest count of its non-empty cells, and at least 1. The loop is proved against a
  declarative description, `IsGreedyLayout`: every word placed in order, no line overfull unless
  it holds a single word, and a line ends only where the next word would not fit. That layout is
  proved to be unique, and the front-to-back reference `Greedy` is proved to satisfy it.
- **Python string operations** (`text.dfy`, module `Text`). These are `str.strip()`,
  `str.split('\n')`, `str.split()` and `str(n)` on `seq<char>`. Whitespace is Python's
  `str.isspace` character set, written out.
- **The two files** (`transtable.dfy`, `tanstable.dfy`). Each defines its page marker and its
  `extract_paragraphs_to_file` as a method. `transtable.py` writes `"P" + str(n) + "\n\n\n"`, and
  its method also returns the line count of every sheet row, header row included.
  `tanstable.py` writes `"\n\n\nP" + str(n)` and sizes no rows. Each proves that its markers
  delimit pages: page `p`'s marker appears in column A exactly once, in the row where page `p`
  starts, and in column B in that same row.

The code does no paragraph merging, has no numeric noise filter and does no spread splitting:
every PDF block is taken as it is, and the model does the same. The marker is also not the bare
`"P<n>"`: it carries three line breaks, after the number in `transtable.py` and before it in
`tanstable.py`.

## Model

| member | source | states |
|---|---|---|
| Text.TrimStart | transtable.py:39 | the result is a suffix of the text, everything removed is whitespace, and it does not start with whitespace |
| Text.TrimEnd | transtable.py:39 | the result is a prefix of the text, everything removed is whitespace, and it does not end with whitespace |
| Text.Strip | transtable.py:39 | a stripped text neither starts nor ends with whitespace |
| Text.StripIsInfix | transtable.py:39 | `strip()` removes only whitespace, from both ends, and leaves a contiguous middle part of the text |
| Text.StripEmptyIff | transtable.py:39-40 | the stripped text is empty exactly when the block text is empty or all whitespace |
| Text.SplitOn | transtable.py:89 | `split('\n')` gives at least one piece, and no piece contains `'\n'` |
| Text.SplitJoin | transtable.py:89 | joining the pieces with `'\n'` gives back the text, and there is one more piece than there are line breaks |
| Text.JoinSplit | transtable.py:89 | splitting a join of line-break-free pieces gives back those pieces |
| Text.Words | transtable.py:98 | `split()` gives non-empty words without whitespace |
| Text.WordsEmptyIff | transtable.py:98-99 | a piece has no words exactly when it is empty or all whitespace |
| Text.WordsAreRuns | transtable.py:98 | `split()` cuts exactly at whitespace: the piece is its words in order, with whitespace-only gaps before, between and after them, and a non-empty gap between two words |
| Text.WordsOfWeave | transtable.py:98 | conversely, words woven with such gaps are exactly what `split()` returns, so the words are the maximal runs without whitespace |
| Text.WordsKeepText | transtable.py:98 | the words run together are the piece's non-whitespace characters in order, so no text is lost or reordered |
| Text.DecimalString | transtable.py:33 | `str(n)` is a non-empty string of decimal digits with no leading zero |
| Text.DecimalRoundTrip | transtable.py:33 | reading the digits of `str(n)` back gives `n` |
| Text.DecimalInjective | transtable.py:33 | different page numbers give different strings |
| Blocks.KeptTextsAppend | transtable.py:35-42 | the kept texts of consecutive runs of blocks are consecutive: each block contributes on its own, in block order |
| Blocks.KeptTextsMembers | transtable.py:38-42 | a text reaches the column exactly when some text block (`block_type == 0`) strips to it and is not empty |
| Blocks.KeptTextsStripped | transtable.py:39-42 | every stored text is the non-empty stripped text |
| Blocks.ColumnStep | transtable.py:38-42 | a kept block appends a `"\n"` cell and its stripped text; a non-text block or a whitespace-only block leaves the column unchanged |
| Blocks.ColumnLayout | transtable.py:33-42 | a page column is the marker followed by `"\n"` and a text per kept block: `1 + 2 * kept` cells, `"\n"` at every odd index, the k-th kept text at index `2k + 2` |
| Blocks.ColumnRoundTrip | transtable.py:41-42 | reading every second cell after the marker gives back exactly the kept texts in order |
| Blocks.BuildColumn | transtable.py:33-42 | the block loop builds exactly the page column |
| Align.PageBlockColumns | transtable.py:58-61 | a page block has `max(|ja|, |en|)` rows; column A is the Japanese column followed by empty cells, column B the English column followed by empty cells |
| Align.PageRowsHeight | transtable.py:58-61 | a page block has `1 + 2 * max(kept ja, kept en)` rows |
| Align.TableStep | transtable.py:58-63 | each page appends its side-by-side block to the table of the pages before it, and changes none of the earlier rows |
| Align.JoinPrefix | transtable.py:63 | appending blocks one after another keeps the join of the leading blocks as a prefix |
| Align.JoinRow | transtable.py:63 | row `i` of block `p` is the row at offset `i` after the rows of the blocks before it |
| Align.TableLength | transtable.py:63 | the table of the first `n` pages has as many rows as the page heights added up |
| Align.TablePrefix | transtable.py:63 | pages are only appended: the table of fewer pages is a prefix of the table of more pages |
| Align.TableRowOfPage | transtable.py:58-63 | row `i` of page `p`'s block is row `PageStart(p) + i` of the table |
| Align.TableRowAt | transtable.py:58-63 | row `PageStart(p) + i` of the table holds row `i` of page `p`'s Japanese and English columns, or empty cells below their ends |
| Align.MarkersShareRow | transtable.py:33-63 | both markers of page `p` sit in the same row, the first row of the page |
| Align.RowPage | transtable.py:63 | every table row lies within the block of one page |
| Align.MarkerRows | transtable.py:33-63 | with distinct markers that do not look like texts, page `p`'s marker occurs in each column exactly at row `PageStart(p)` |
| Align.JaColumnIsPages | transtable.py:58-63 | column A, empty cells skipped, is every page's Japanese column in page order |
| Align.EnColumnIsPages | transtable.py:58-63 | column B, empty cells skipped, is the English column of every page that has a Japanese counterpart, in page order |
| Align.ExtraEnglishPagesIgnored | transtable.py:28-46 | English pages past the Japanese page count do not affect the table |
| Align.TableAgrees | transtable.py:46 | the table of the first `n` pages depends only on the first `n` English pages |
| Align.AlignDocuments | transtable.py:28-63 | the page loop returns the table of all Japanese pages, or fails at page `|en|` when the English document has fewer pages |
| RowLines.LineEnd | transtable.py:103-111 | a line takes the words that fit and ends before the first word that does not |
| RowLines.GreedyIsLayout | transtable.py:102-113 | the reference layout places every word in order, overfills no line unless it holds a single word, and breaks a line only before a word that does not fit |
| RowLines.LayoutUnique | transtable.py:102-113 | two layouts meeting that description are equal, so the line count is determined by the words and the width |
| RowLines.FirstLineLongest | transtable.py:107-111 | the first greedy line is at least as long as any fitting run of first words |
| RowLines.OneWordLayout | transtable.py:105-106 | the first word of a piece opens a line on its own, which is a greedy layout of that word |
| RowLines.ExtendLastLine | transtable.py:107-108 | a word that fits after the current line joins it, and the layout stays greedy |
| RowLines.StartNewLine | transtable.py:109-111 | a word that does not fit closes the line and opens the next, and the layout stays greedy |
| RowLines.TailLayout | transtable.py:102-113 | the first line of a greedy layout is a prefix of the words, and the rest is a greedy layout of what follows |
| RowLines.ConsLayout | transtable.py:102-113 | a fitting first line that the next word would overfill, put before a greedy layout, gives a greedy layout |
| RowLines.LayoutSize | transtable.py:97-113 | a piece with `w >= 1` words takes between 1 and `w` lines |
| RowLines.LayoutLinesBounded | transtable.py:104-111 | no line is longer than the larger of the width and the longest word |
| RowLines.PieceLines | transtable.py:97-113 | the word loop counts exactly the lines of the greedy layout, or 1 for a piece without words |
| RowLines.PieceLineBounds | transtable.py:97-113 | a piece adds at least one line and at most `max(1, words)`, and exactly one when it is empty or all whitespace |
| RowLines.CellLines | transtable.py:88-113 | the piece loop adds up the line counts of the `'\n'`-separated pieces |
| RowLines.CellLinesAtLeastPieces | transtable.py:89-101 | a cell takes at least one line more than it has line breaks |
| RowLines.CharsPerLine | transtable.py:93 | the estimated characters per line is at least 10, and is the scaled width when that is larger |
| RowLines.RowMaxLines | transtable.py:83-116 | the cell loop computes the row's line count |
| RowLines.MaxLinesBounds | transtable.py:83-116 | keeping the larger count from a start of 1 ends at least at 1 and at least at every cell's count |
| RowLines.MaxLinesAttained | transtable.py:83-116 | keeping the larger count from a start of 1 ends at 1 or at the count of one of the cells |
| RowLines.RowLineCountBounds | transtable.py:83-116 | the row count is at least 1 and at least the line count of every cell, an empty cell counting none |
| RowLines.RowLineCountAttained | transtable.py:83-116 | the row count is 1 or the line count of one of the row's non-empty cells |
| RowLines.SheetLines | transtable.py:82-119 | every sheet row gets the line count of its two cells at the columns' scaled width |
| TransTable.MarkersAreDelimiters | transtable.py:33 | markers `"P<n>\n\n\n"` differ between pages and are never a separator or a stripped text |
| TransTable.PageMarkerRows | transtable.py:28-63 | page `p`'s marker is in column A exactly at row `PageStart(p)`, and in column B in the same row |
| TransTable.ExtractParagraphsToFile | transtable.py:19-119 | the function yields the aligned table and one line count per sheet row, or fails when an English page is missing |
| TansTable.MarkersAreDelimiters | tanstable.py:29 | markers `"\n\n\nP<n>"` differ between pages and are never a separator or a stripped text |
| TansTable.PageMarkerRows | tanstable.py:24-59 | page `p`'s marker is in column A exactly at row `PageStart(p)`, and in column B in the same row |
| TansTable.ExtractParagraphsToFile | tanstable.py:15-61 | the function yields the aligned table, or fails when an English page is missing |

## Left out

- The Streamlit page, uploads, messages and the download button (transtable.py:139-176, tanstable.py:66-103) are presentation and I/O.
- Opening the PDFs and `get_text("blocks", sort=True)` are a foreign library. Each document is a sequence of pages, and each page is its block list in the order the library returns it.
- Writing the sheet (`to_excel`), reloading it with openpyxl, column widths, fonts, alignment and `wb.save` are file I/O. The sheet's rows are modelled as the header row `("ja", "en")` followed by the table, or one empty row for an empty table, because that is what the line loop iterates over.
- RowLines.CharsPerLine: takes `int(col_width * 1.8)` as an integer input instead of computing it from the float width. For the width of 100 the file sets on columns A and B, this is the constant `ScaledWidth = 180`.
- The row height in points, `max(15, max_lines * 14 * 1.2)`, is float arithmetic. The model stops at the integer line count.
- Coordinates and `block_no` are carried in `Block` but never read, as in the code.
- Unicode normalisation is not modelled. A character is a Unicode scalar value, and `len(w)` is the number of characters.
- openpyxl turns a string cell that begins with `=` into a formula. The model treats every cell as text.
- `print` of the completion messages is left out.
- TransTable.ExtractParagraphsToFile: the sheet is modelled as the table itself, so two effects of the writer (transtable.py:65) are not captured. openpyxl refuses, with `IllegalCharacterError`, a cell text that contains U+0000-U+0008, U+000B, U+000C or U+000E-U+001F; `strip()` removes U+000B, U+000C and U+001C-U+001F only at the ends, so such a character inside a kept text would stop the write. openpyxl also keeps at most 32,767 characters of a cell, and the line loop (transtable.py:67-116) reads the values back from the saved file, so a longer text would be sized by its first 32,767 characters.
- TansTable.ExtractParagraphsToFile: the sheet is modelled as the table itself, so the same writer effects (tanstable.py:61) are not captured: `IllegalCharacterError` on U+0000-U+0008, U+000B, U+000C or U+000E-U+001F left inside a kept text, and the 32,767-character limit of a cell.
