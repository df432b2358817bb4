/** The per-page column builder: which text blocks of a page reach the table, and the column
    of cells a page contributes (a page marker, then a separator cell and the stripped text for
    every kept block). */
module Blocks {
  import opened Text

  /** One entry of a page's block list, as the PDF library returns it:
      `(x0, y0, x1, y1, text, block_no, block_type)`. */
  datatype Block = Block(x0: real, y0: real, x1: real, y1: real,
                         text: string, blockNo: int, blockType: int)

  /** `block_type` of a text block; any other value is an image block. */
  const TextBlock: int := 0

  /** The cell written before each kept text. */
  const Separator: string := "\n"

  /** A block reaches the column when it is a text block whose stripped text is not empty. */
  predicate IsKept(b: Block) {
    b.blockType == TextBlock && Strip(b.text) != []
  }

  /** The stripped texts of the kept blocks, in block order. */
  function KeptTexts(blocks: seq<Block>): (ts: seq<string>)
    ensures |ts| <= |blocks|
  {
    if blocks == [] then []
    else
      var last := blocks[|blocks| - 1];
      KeptTexts(blocks[..|blocks| - 1]) + (if IsKept(last) then [Strip(last.text)] else [])
  }

  /** A separator cell before every text. */
  function Interleave(ts: seq<string>): seq<string> {
    if ts == [] then [] else Interleave(ts[..|ts| - 1]) + [Separator, ts[|ts| - 1]]
  }

  /** The column a page contributes under page marker `marker`. */
  function Column(marker: string, blocks: seq<Block>): seq<string> {
    [marker] + Interleave(KeptTexts(blocks))
  }

  /** The texts of a column: every second cell after the marker. */
  function ColumnTexts(col: seq<string>): (ts: seq<string>)
    ensures |ts| == if col == [] then 0 else (|col| - 1) / 2
  {
    if |col| < 3 then [] else [col[2]] + ColumnTexts(col[2..])
  }

  /** Kept texts of consecutive runs of blocks are consecutive: each block contributes on its
      own, and the order of the blocks is the order of the texts. */
  lemma {:induction false} KeptTextsAppend(a: seq<Block>, b: seq<Block>)
    ensures KeptTexts(a + b) == KeptTexts(a) + KeptTexts(b)
    decreases |b|
  {
    if b == [] {
      assert a + b == a;
    } else {
      var b' := b[..|b| - 1];
      assert (a + b)[..|a + b| - 1] == a + b';
      KeptTextsAppend(a, b');
    }
  }

  /** Block `b` reaches the column as text `t`. */
  predicate KeptAs(b: Block, t: string) {
    IsKept(b) && t == Strip(b.text)
  }

  /** Every text the column receives is non-empty and stripped: it neither starts nor ends
      with whitespace. */
  lemma {:induction false} KeptTextsStripped(blocks: seq<Block>)
    ensures forall k :: 0 <= k < |KeptTexts(blocks)| ==>
      KeptTexts(blocks)[k] != [] && IsStripped(KeptTexts(blocks)[k])
  {
    if blocks != [] {
      KeptTextsStripped(blocks[..|blocks| - 1]);
    }
  }

  /** A text is in the column exactly when some kept block strips to it. */
  lemma {:induction false} KeptTextsMembers(blocks: seq<Block>, t: string)
    ensures t in KeptTexts(blocks) <==> exists k :: 0 <= k < |blocks| && KeptAs(blocks[k], t)
  {
    if blocks != [] {
      var n := |blocks| - 1;
      var init := blocks[..n];
      KeptTextsMembers(init, t);
      var last := if IsKept(blocks[n]) then [Strip(blocks[n].text)] else [];
      assert KeptTexts(blocks) == KeptTexts(init) + last;
      if t in KeptTexts(blocks) {
        if t in KeptTexts(init) {
          var k :| 0 <= k < n && KeptAs(init[k], t);
          assert KeptAs(blocks[k], t);
        } else {
          assert KeptAs(blocks[n], t);
        }
      } else {
        forall k | 0 <= k < |blocks| ensures !KeptAs(blocks[k], t) {
          if k < n {
            assert blocks[k] == init[k];
            assert !KeptAs(init[k], t);
          } else {
            assert k == n;
          }
        }
      }
    }
  }

  lemma {:induction false} InterleaveLayout(ts: seq<string>)
    ensures |Interleave(ts)| == 2 * |ts|
    ensures forall k :: 0 <= k < |ts| ==>
      Interleave(ts)[2 * k] == Separator && Interleave(ts)[2 * k + 1] == ts[k]
  {
    if ts != [] {
      InterleaveLayout(ts[..|ts| - 1]);
    }
  }

  /** The shape of a page column: one marker cell, then a separator cell and a text cell for
      each kept block, so `1 + 2 * kept` cells with the separator at every odd index. */
  lemma ColumnLayout(marker: string, blocks: seq<Block>)
    ensures var col, ts := Column(marker, blocks), KeptTexts(blocks);
      |col| == 1 + 2 * |ts| && col[0] == marker &&
      forall k :: 0 <= k < |ts| ==> col[2 * k + 1] == Separator && col[2 * k + 2] == ts[k]
  {
    var ts := KeptTexts(blocks);
    InterleaveLayout(ts);
    forall k | 0 <= k < |ts|
      ensures Column(marker, blocks)[2 * k + 1] == Separator
      ensures Column(marker, blocks)[2 * k + 2] == ts[k]
    {
      assert Column(marker, blocks)[2 * k + 1] == Interleave(ts)[2 * k];
      assert Column(marker, blocks)[2 * k + 2] == Interleave(ts)[2 * k + 1];
    }
  }

  lemma {:induction false} ColumnTextsOfLayout(col: seq<string>, ts: seq<string>)
    requires |col| == 1 + 2 * |ts|
    requires forall k :: 0 <= k < |ts| ==> col[2 * k + 2] == ts[k]
    ensures ColumnTexts(col) == ts
  {
    if ts != [] {
      forall k | 0 <= k < |ts| - 1 ensures col[2..][2 * k + 2] == ts[1..][k] {
        assert col[2..][2 * k + 2] == col[2 * (k + 1) + 2];
      }
      ColumnTextsOfLayout(col[2..], ts[1..]);
    }
  }

  /** The column can be read back: its text cells are exactly the kept texts, in order. */
  lemma ColumnRoundTrip(marker: string, blocks: seq<Block>)
    ensures ColumnTexts(Column(marker, blocks)) == KeptTexts(blocks)
  {
    ColumnLayout(marker, blocks);
    ColumnTextsOfLayout(Column(marker, blocks), KeptTexts(blocks));
  }

  /** One step of the block loop: a kept block adds a separator cell and its stripped text,
      any other block adds nothing. */
  lemma ColumnStep(marker: string, blocks: seq<Block>, i: nat)
    requires i < |blocks|
    ensures Column(marker, blocks[..i + 1]) == Column(marker, blocks[..i]) +
      (if IsKept(blocks[i]) then [Separator, Strip(blocks[i].text)] else [])
  {
    var before := KeptTexts(blocks[..i]);
    assert blocks[..i + 1][..i] == blocks[..i];
    if IsKept(blocks[i]) {
      var text := Strip(blocks[i].text);
      assert KeptTexts(blocks[..i + 1]) == before + [text];
      assert (before + [text])[..|before|] == before;
      assert Interleave(before + [text]) == Interleave(before) + [Separator, text];
    } else {
      assert KeptTexts(blocks[..i + 1]) == before;
    }
  }

  /** The block loop of one page: start from the marker and append a separator and the
      stripped text for every text block whose stripped text is not empty. */
  method BuildColumn(marker: string, blocks: seq<Block>) returns (col: seq<string>)
    ensures col == Column(marker, blocks)
  {
    col := [marker];
    for i := 0 to |blocks|
      invariant col == Column(marker, blocks[..i])
    {
      ColumnStep(marker, blocks, i);
      var b := blocks[i];
      if b.blockType == TextBlock {
        var text := Strip(b.text);
        if text != [] {
          col := col + [Separator];
          col := col + [text];
        }
      }
    }
    assert blocks[..|blocks|] == blocks;
  }
}
