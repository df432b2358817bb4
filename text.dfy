/** Python string operations the block filter and the line estimator rely on, on `seq<char>`:
    `str.strip()`, `str.split('\n')`, `str.split()` and `str(n)` for a page number. */
module Text {

  /** Python's `str.isspace` for one character: the characters `strip()` and `split()`
      treat as whitespace. */
  predicate IsSpace(c: char) {
    ('\t' <= c <= '\r') || ('\U{1C}' <= c <= ' ') || c == '\U{85}' || c == '\U{A0}' ||
    c == '\U{1680}' || ('\U{2000}' <= c <= '\U{200A}') || c == '\U{2028}' || c == '\U{2029}' ||
    c == '\U{202F}' || c == '\U{205F}' || c == '\U{3000}'
  }

  predicate AllSpace(s: string) {
    forall i :: 0 <= i < |s| ==> IsSpace(s[i])
  }

  predicate NoSpace(s: string) {
    forall i :: 0 <= i < |s| ==> !IsSpace(s[i])
  }

  /** Text whose first and last characters are not whitespace: what `strip()` returns. */
  predicate IsStripped(s: string) {
    s == [] || (!IsSpace(s[0]) && !IsSpace(s[|s| - 1]))
  }

  /** The first index at or after `i` that is not whitespace, or `|s|`. */
  function SkipSpace(s: string, i: nat): (j: nat)
    requires i <= |s|
    ensures i <= j <= |s|
    ensures forall k :: i <= k < j ==> IsSpace(s[k])
    ensures j == |s| || !IsSpace(s[j])
    decreases |s| - i
  {
    if i < |s| && IsSpace(s[i]) then SkipSpace(s, i + 1) else i
  }

  /** The first index at or after `i` that is whitespace, or `|s|`. */
  function SkipWord(s: string, i: nat): (j: nat)
    requires i <= |s|
    ensures i <= j <= |s|
    ensures forall k :: i <= k < j ==> !IsSpace(s[k])
    ensures j == |s| || IsSpace(s[j])
    decreases |s| - i
  {
    if i < |s| && !IsSpace(s[i]) then SkipWord(s, i + 1) else i
  }

  /** The index just after the last non-whitespace character before `j`, or 0. */
  function SkipSpaceBack(s: string, j: nat): (i: nat)
    requires j <= |s|
    ensures i <= j
    ensures forall k :: i <= k < j ==> IsSpace(s[k])
    ensures i == 0 || !IsSpace(s[i - 1])
  {
    if j > 0 && IsSpace(s[j - 1]) then SkipSpaceBack(s, j - 1) else j
  }

  /** `s.lstrip()`: the suffix of `s` left after its leading whitespace. */
  function TrimStart(s: string): (r: string)
    ensures |r| <= |s| && r == s[|s| - |r|..]
    ensures AllSpace(s[..|s| - |r|])
    ensures r == [] || !IsSpace(r[0])
  {
    s[SkipSpace(s, 0)..]
  }

  /** `s.rstrip()`: the prefix of `s` left before its trailing whitespace. */
  function TrimEnd(s: string): (r: string)
    ensures |r| <= |s| && r == s[..|r|]
    ensures AllSpace(s[|r|..])
    ensures r == [] || !IsSpace(r[|r| - 1])
  {
    s[..SkipSpaceBack(s, |s|)]
  }

  /** `s.strip()`. */
  function Strip(s: string): (r: string)
    ensures IsStripped(r)
  {
    var t := TrimStart(s);
    var r := TrimEnd(t);
    assert r != [] ==> r[0] == t[0];
    r
  }

  /** `strip()` removes only whitespace, from both ends, and keeps the middle intact. */
  lemma StripIsInfix(s: string)
    ensures var r := Strip(s);
      exists i :: 0 <= i <= i + |r| <= |s| && r == s[i..i + |r|] &&
        AllSpace(s[..i]) && AllSpace(s[i + |r|..])
  {
    var t := TrimStart(s);
    var r := TrimEnd(t);
    var i := |s| - |t|;
    assert r == s[i..i + |r|];
    assert s[i + |r|..] == t[|r|..];
  }

  /** A block is dropped by the emptiness test exactly when its text is all whitespace. */
  lemma StripEmptyIff(s: string)
    ensures Strip(s) == [] <==> AllSpace(s)
  {
    var t := TrimStart(s);
    assert t[0..] == t;
    assert s == s[..|s| - |t|] + t;
    if t != [] {
      assert t[0] == s[|s| - |t|];
    }
  }

  /** Characters of `s` that are not whitespace, in order. */
  function NonSpace(s: string): (r: string)
    ensures |r| <= |s| && NoSpace(r)
  {
    if s == [] then [] else (if IsSpace(s[0]) then [] else [s[0]]) + NonSpace(s[1..])
  }

  lemma {:induction false} NonSpaceAppend(a: string, b: string)
    ensures NonSpace(a + b) == NonSpace(a) + NonSpace(b)
  {
    if a != [] {
      assert (a + b)[1..] == a[1..] + b;
      NonSpaceAppend(a[1..], b);
    } else {
      assert a + b == b;
    }
  }

  lemma {:induction false} NonSpaceOfSpaces(s: string)
    requires AllSpace(s)
    ensures NonSpace(s) == []
  {
    if s != [] {
      NonSpaceOfSpaces(s[1..]);
    }
  }

  lemma {:induction false} NonSpaceOfWord(s: string)
    requires NoSpace(s)
    ensures NonSpace(s) == s
  {
    if s != [] {
      NonSpaceOfWord(s[1..]);
    }
  }

  /** Python's `text.split(sep)` with one separator character: the pieces between separators,
      empty pieces included. */
  function SplitOn(s: string, sep: char): (pieces: seq<string>)
    ensures |pieces| >= 1
    ensures forall k :: 0 <= k < |pieces| ==> sep !in pieces[k]
  {
    if s == [] then [[]]
    else
      var rest := SplitOn(s[1..], sep);
      if s[0] == sep then [[]] + rest
      else [[s[0]] + rest[0]] + rest[1..]
  }

  /** `sep.join(pieces)`. */
  function JoinWith(pieces: seq<string>, sep: char): string
    requires |pieces| >= 1
  {
    if |pieces| == 1 then pieces[0] else pieces[0] + [sep] + JoinWith(pieces[1..], sep)
  }

  /** Number of occurrences of `c` in `s`. */
  function Occurrences(s: string, c: char): nat {
    if s == [] then 0 else (if s[0] == c then 1 else 0) + Occurrences(s[1..], c)
  }

  /** Splitting loses nothing: joining the pieces back gives the text, and there is one
      more piece than there are separators. */
  lemma {:induction false} SplitJoin(s: string, sep: char)
    ensures JoinWith(SplitOn(s, sep), sep) == s
    ensures |SplitOn(s, sep)| == Occurrences(s, sep) + 1
  {
    if s != [] {
      SplitJoin(s[1..], sep);
      var rest := SplitOn(s[1..], sep);
      if s[0] == sep {
        assert ([[]] + rest)[1..] == rest;
        assert s == [] + [sep] + s[1..];
      } else {
        var ps := [[s[0]] + rest[0]] + rest[1..];
        if |rest| == 1 {
          assert s == [s[0]] + s[1..];
        } else {
          assert ps[1..] == rest[1..];
          assert JoinWith(rest, sep) == rest[0] + [sep] + JoinWith(rest[1..], sep);
          assert s == [s[0]] + s[1..];
        }
      }
    }
  }

  /** The pieces of a text are determined by the text: splitting a join of separator-free
      pieces gives those pieces back. */
  lemma {:induction false} JoinSplit(pieces: seq<string>, sep: char)
    requires |pieces| >= 1
    requires forall k :: 0 <= k < |pieces| ==> sep !in pieces[k]
    ensures SplitOn(JoinWith(pieces, sep), sep) == pieces
  {
    if |pieces| == 1 {
      SplitOfPiece(pieces[0], sep);
    } else {
      JoinSplit(pieces[1..], sep);
      SplitPrefix(pieces[0], JoinWith(pieces[1..], sep), sep);
    }
  }

  lemma {:induction false} SplitOfPiece(p: string, sep: char)
    requires sep !in p
    ensures SplitOn(p, sep) == [p]
  {
    if p != [] {
      SplitOfPiece(p[1..], sep);
      assert [p[0]] + p[1..] == p;
    }
  }

  lemma {:induction false} SplitPrefix(p: string, t: string, sep: char)
    requires sep !in p
    ensures SplitOn(p + [sep] + t, sep) == [p] + SplitOn(t, sep)
  {
    if p == [] {
      assert p + [sep] + t == [sep] + t;
      assert ([sep] + t)[1..] == t;
    } else {
      var s := p + [sep] + t;
      assert s[1..] == p[1..] + [sep] + t;
      SplitPrefix(p[1..], t, sep);
      assert [p[0]] + p[1..] == p;
    }
  }

  /** The words of `s` from index `i` on. */
  function WordsFrom(s: string, i: nat): seq<string>
    requires i <= |s|
    decreases |s| - i
  {
    var j := SkipSpace(s, i);
    if j == |s| then []
    else
      var e := SkipWord(s, j);
      assert e > j;
      [s[j..e]] + WordsFrom(s, e)
  }

  /** One step of `WordsFrom`: skip the whitespace, take the word up to the next whitespace. */
  lemma WordsFromCons(s: string, i: nat)
    requires i <= |s| && SkipSpace(s, i) < |s|
    ensures var j := SkipSpace(s, i); var e := SkipWord(s, j);
      j < e && WordsFrom(s, i) == [s[j..e]] + WordsFrom(s, e) && NoSpace(s[j..e])
  {
  }

  lemma {:induction false} WordsFromAreWords(s: string, i: nat)
    requires i <= |s|
    ensures AreWords(WordsFrom(s, i))
    decreases |s| - i
  {
    var j := SkipSpace(s, i);
    if j < |s| {
      var e := SkipWord(s, j);
      WordsFromCons(s, i);
      WordsFromAreWords(s, e);
      ConsWords(s[j..e], WordsFrom(s, e));
    }
  }

  lemma ConsWords(w: string, ws: seq<string>)
    requires w != [] && NoSpace(w) && AreWords(ws)
    ensures AreWords([w] + ws)
  {
    forall k | 0 < k < |ws| + 1 ensures ([w] + ws)[k] == ws[k - 1] {
    }
  }

  /** Python's `s.split()` with no argument: the maximal runs of non-whitespace characters. */
  function Words(s: string): (ws: seq<string>)
    ensures forall k :: 0 <= k < |ws| ==> ws[k] != [] && NoSpace(ws[k])
  {
    WordsFromAreWords(s, 0);
    WordsFrom(s, 0)
  }

  /** The words concatenated. */
  function Concat(ws: seq<string>): string {
    if ws == [] then [] else ws[0] + Concat(ws[1..])
  }

  lemma ConcatCons(w: string, ws: seq<string>)
    ensures Concat([w] + ws) == w + Concat(ws)
  {
    assert ([w] + ws)[1..] == ws;
  }

  /** A piece has no words exactly when it is empty or all whitespace. */
  lemma WordsEmptyIff(s: string)
    ensures Words(s) == [] <==> AllSpace(s)
  {
    var j := SkipSpace(s, 0);
    if j < |s| {
      assert !IsSpace(s[j]);
    }
  }

  /** Splitting into words drops the whitespace and nothing else: the words, run together,
      are the non-whitespace characters of the text in order. */
  lemma WordsKeepText(s: string)
    ensures Concat(Words(s)) == NonSpace(s)
  {
    WordsFromKeepText(s, 0);
    assert s[0..] == s;
  }

  lemma {:induction false} WordsFromKeepText(s: string, i: nat)
    requires i <= |s|
    ensures Concat(WordsFrom(s, i)) == NonSpace(s[i..])
    decreases |s| - i
  {
    var j := SkipSpace(s, i);
    SkipLeadingSpace(s, i, j);
    if j == |s| {
      assert s[j..] == [];
    } else {
      var e := SkipWord(s, j);
      WordsFromKeepText(s, e);
      TakeLeadingWord(s, j, e);
    }
  }

  /** Whitespace before index `j` adds no characters. */
  lemma SkipLeadingSpace(s: string, i: nat, j: nat)
    requires i <= j <= |s|
    requires forall k :: i <= k < j ==> IsSpace(s[k])
    ensures NonSpace(s[i..]) == NonSpace(s[j..])
  {
    assert s[i..] == s[i..j] + s[j..];
    NonSpaceAppend(s[i..j], s[j..]);
    NonSpaceOfSpaces(s[i..j]);
  }

  /** The word from `j` to `e` comes first, then the words after it. */
  lemma TakeLeadingWord(s: string, j: nat, e: nat)
    requires j < |s| && !IsSpace(s[j]) && e == SkipWord(s, j)
    requires Concat(WordsFrom(s, e)) == NonSpace(s[e..])
    ensures Concat(WordsFrom(s, j)) == NonSpace(s[j..])
  {
    WordsFromAtWord(s, j, e);
    NonSpaceAtWord(s, j, e);
  }

  lemma WordsFromAtWord(s: string, j: nat, e: nat)
    requires j < |s| && !IsSpace(s[j]) && e == SkipWord(s, j)
    ensures Concat(WordsFrom(s, j)) == s[j..e] + Concat(WordsFrom(s, e))
  {
    assert SkipSpace(s, j) == j;
    assert WordsFrom(s, j) == [s[j..e]] + WordsFrom(s, e);
    ConcatCons(s[j..e], WordsFrom(s, e));
  }

  lemma NonSpaceAtWord(s: string, j: nat, e: nat)
    requires j <= e <= |s| && e == SkipWord(s, j)
    ensures NonSpace(s[j..]) == s[j..e] + NonSpace(s[e..])
  {
    assert s[j..] == s[j..e] + s[e..];
    NonSpaceAppend(s[j..e], s[e..]);
    NonSpaceOfWord(s[j..e]);
  }

  /** `gaps[0] + ws[0] + gaps[1] + ... + ws[|ws| - 1] + gaps[|ws|]`: the words with the text
      around and between them. */
  function Weave(gaps: seq<string>, ws: seq<string>): string
    requires |gaps| == |ws| + 1
    decreases |ws|
  {
    if ws == [] then gaps[0] else gaps[0] + ws[0] + Weave(gaps[1..], ws[1..])
  }

  /** Gaps that separate words: whitespace only, and never empty between two words. */
  predicate Separates(gaps: seq<string>, ws: seq<string>) {
    |gaps| == |ws| + 1 &&
    (forall k :: 0 <= k < |gaps| ==> AllSpace(gaps[k])) &&
    (forall k :: 0 < k < |ws| ==> gaps[k] != [])
  }

  /** Non-empty runs without whitespace. */
  predicate AreWords(ws: seq<string>) {
    forall k :: 0 <= k < |ws| ==> ws[k] != [] && NoSpace(ws[k])
  }

  /** `split()` cuts the text exactly at its whitespace: the text is its words, in order,
      with runs of whitespace before, between and after them, and at least one whitespace
      character between two words. */
  lemma WordsAreRuns(s: string)
    ensures exists gaps :: Separates(gaps, Words(s)) && s == Weave(gaps, Words(s))
  {
    var gaps := WordsFromRuns(s, 0);
    assert s[0..] == s;
    assert Separates(gaps, Words(s)) && s == Weave(gaps, Words(s));
  }

  lemma {:induction false} WordsFromRuns(s: string, i: nat) returns (gaps: seq<string>)
    requires i <= |s|
    ensures Separates(gaps, WordsFrom(s, i))
    ensures gaps[0] == s[i..SkipSpace(s, i)]
    ensures s[i..] == Weave(gaps, WordsFrom(s, i))
    decreases |s| - i
  {
    var j := SkipSpace(s, i);
    assert AllSpace(s[i..j]);
    if j == |s| {
      gaps := [s[i..]];
    } else {
      var e := SkipWord(s, j);
      WordsFromCons(s, i);
      var rest := WordsFromRuns(s, e);
      if WordsFrom(s, e) != [] {
        GapAfterWord(s, j, e);
      }
      gaps := [s[i..j]] + rest;
      SeparatesCons(s[i..j], s[j..e], rest, WordsFrom(s, e));
      WeaveCons(s[i..j], s[j..e], rest, WordsFrom(s, e));
      SplitThree(s, i, j, e);
    }
  }

  /** The whitespace after a word that is followed by more words is not empty. */
  lemma GapAfterWord(s: string, j: nat, e: nat)
    requires j < |s| && e == SkipWord(s, j) && WordsFrom(s, e) != []
    ensures s[e..SkipSpace(s, e)] != []
  {
  }

  lemma SplitThree(s: string, i: nat, j: nat, e: nat)
    requires i <= j <= e <= |s|
    ensures s[i..] == s[i..j] + s[j..e] + s[e..]
  {
  }

  lemma SeparatesCons(g: string, w: string, gaps: seq<string>, ws: seq<string>)
    requires AllSpace(g) && Separates(gaps, ws)
    requires ws != [] ==> gaps[0] != []
    ensures Separates([g] + gaps, [w] + ws)
  {
    var gs := [g] + gaps;
    forall k | 0 < k < |gs| ensures gs[k] == gaps[k - 1] {
    }
  }

  lemma WeaveCons(g: string, w: string, gaps: seq<string>, ws: seq<string>)
    requires |gaps| == |ws| + 1
    ensures Weave([g] + gaps, [w] + ws) == g + w + Weave(gaps, ws)
  {
    assert ([g] + gaps)[1..] == gaps && ([w] + ws)[1..] == ws;
  }

  /** The converse: whatever words are woven with separating gaps, `split()` recovers exactly
      those words. With `WordsAreRuns`, the words are determined by the text. */
  lemma {:induction false} WordsOfWeave(gaps: seq<string>, ws: seq<string>)
    requires Separates(gaps, ws) && AreWords(ws)
    ensures Words(Weave(gaps, ws)) == ws
  {
    var s := Weave(gaps, ws);
    assert s[0..] == s;
    WordsFromWeave(s, 0, gaps, ws);
  }

  /** The words of `s` from `i` on, when the rest of `s` is a weave of words and gaps. */
  lemma {:induction false} WordsFromWeave(s: string, i: nat, gaps: seq<string>, ws: seq<string>)
    requires i <= |s| && Separates(gaps, ws) && AreWords(ws) && s[i..] == Weave(gaps, ws)
    ensures WordsFrom(s, i) == ws
    decreases |ws|
  {
    if ws == [] {
      GapOnly(s, i);
    } else {
      var e := WeaveFirstWord(s, i, gaps, ws);
      SeparatesTail(gaps, ws);
      WordsFromWeave(s, e, gaps[1..], ws[1..]);
      assert ws == [ws[0]] + ws[1..];
    }
  }

  /** The first word of a weave is the next word of `s`; the rest of `s` is the rest of the
      weave. */
  lemma WeaveFirstWord(s: string, i: nat, gaps: seq<string>, ws: seq<string>) returns (e: nat)
    requires i <= |s| && Separates(gaps, ws) && AreWords(ws) && s[i..] == Weave(gaps, ws)
    requires ws != []
    ensures e <= |s| && s[e..] == Weave(gaps[1..], ws[1..])
    ensures WordsFrom(s, i) == [ws[0]] + WordsFrom(s, e)
  {
    var rest := Weave(gaps[1..], ws[1..]);
    RestStartsWithSpace(gaps, ws);
    var j := i + |gaps[0]|;
    e := j + |ws[0]|;
    ScanGapThenWord(s, i, gaps[0], ws[0], rest);
    WordsFromStep(s, i, j, e);
  }

  /** Only whitespace left: no more words. */
  lemma GapOnly(s: string, i: nat)
    requires i <= |s| && AllSpace(s[i..])
    ensures WordsFrom(s, i) == []
  {
    assert s[i..] == s[i..|s|];
    ScanGap(s, i, |s|);
    WordsFromEnd(s, i);
  }

  /** The scans over `s[i..] == g + w + rest`: the gap ends where `w` starts, the word where
      `rest` starts. */
  lemma ScanGapThenWord(s: string, i: nat, g: string, w: string, rest: string)
    requires i <= |s| && s[i..] == g + w + rest
    requires AllSpace(g) && w != [] && NoSpace(w) && (rest == [] || IsSpace(rest[0]))
    ensures i + |g| + |w| <= |s| && s[i + |g|..i + |g| + |w|] == w && s[i + |g| + |w|..] == rest
    ensures SkipSpace(s, i) == i + |g| < |s| && SkipWord(s, i + |g|) == i + |g| + |w|
  {
    var j, e := i + |g|, i + |g| + |w|;
    WeaveParts(s, i, g, w, rest);
    assert s[j] == w[0];
    ScanGap(s, i, j);
    if e < |s| {
      assert s[e] == rest[0];
    }
    ScanWord(s, j, e);
  }

  /** Cutting the rest of `s` into a gap, a word and what follows. */
  lemma WeaveParts(s: string, i: nat, g: string, w: string, rest: string)
    requires i <= |s| && s[i..] == g + w + rest
    ensures i + |g| + |w| <= |s| && s[i..i + |g|] == g && s[i + |g|..i + |g| + |w|] == w
    ensures s[i + |g| + |w|..] == rest
  {
    var j, e := i + |g|, i + |g| + |w|;
    assert s[i..j] == s[i..][..|g|];
    assert s[j..e] == s[i..][|g|..|g| + |w|];
    assert s[e..] == s[i..][|g| + |w|..];
  }

  /** A run of whitespace followed by the end or by other text is what the whitespace scan
      skips. */
  lemma ScanGap(s: string, i: nat, j: nat)
    requires i <= j <= |s| && AllSpace(s[i..j]) && (j == |s| || !IsSpace(s[j]))
    ensures SkipSpace(s, i) == j
  {
    forall k | i <= k < j ensures IsSpace(s[k]) {
      assert s[k] == s[i..j][k - i];
    }
    SpaceScanStops(s, i, j);
  }

  /** A run without whitespace followed by the end or by whitespace is what the word scan
      takes. */
  lemma ScanWord(s: string, j: nat, e: nat)
    requires j <= e <= |s| && NoSpace(s[j..e]) && (e == |s| || IsSpace(s[e]))
    ensures SkipWord(s, j) == e
  {
    forall k | j <= k < e ensures !IsSpace(s[k]) {
      assert s[k] == s[j..e][k - j];
    }
    WordScanStops(s, j, e);
  }

  lemma SeparatesTail(gaps: seq<string>, ws: seq<string>)
    requires Separates(gaps, ws) && AreWords(ws) && ws != []
    ensures Separates(gaps[1..], ws[1..]) && AreWords(ws[1..])
  {
    forall k | 0 <= k < |ws| ensures gaps[1..][k] == gaps[k + 1] {
    }
    forall k | 0 <= k < |ws| - 1 ensures ws[1..][k] == ws[k + 1] {
    }
  }

  /** After the first word of a weave comes nothing or whitespace. */
  lemma RestStartsWithSpace(gaps: seq<string>, ws: seq<string>)
    requires Separates(gaps, ws) && ws != []
    ensures var rest := Weave(gaps[1..], ws[1..]); rest == [] || IsSpace(rest[0])
  {
    var g1 := gaps[1];
    assert gaps[1..][0] == g1;
    if g1 != [] {
      assert IsSpace(g1[0]);
      if |ws| > 1 {
        assert Weave(gaps[1..], ws[1..]) == g1 + ws[1] + Weave(gaps[1..][1..], ws[1..][1..]);
      }
    }
  }

      /** The whitespace scan from `i` stops at the first non-whitespace character. */
  lemma {:induction false} SpaceScanStops(t: string, i: nat, m: nat)
    requires i <= m <= |t|
    requires forall k :: i <= k < m ==> IsSpace(t[k])
    requires m == |t| || !IsSpace(t[m])
    ensures SkipSpace(t, i) == m
    decreases m - i
  {
    if i < m {
      SpaceScanStops(t, i + 1, m);
    }
  }

  /** The word scan from `i` stops at the first whitespace character. */
  lemma {:induction false} WordScanStops(t: string, i: nat, m: nat)
    requires i <= m <= |t|
    requires forall k :: i <= k < m ==> !IsSpace(t[k])
    requires m == |t| || IsSpace(t[m])
    ensures SkipWord(t, i) == m
    decreases m - i
  {
    if i < m {
      WordScanStops(t, i + 1, m);
    }
  }

  /** `WordsFromCons` with the word's bounds passed in. */
  lemma WordsFromStep(s: string, i: nat, j: nat, e: nat)
    requires i <= |s| && j == SkipSpace(s, i) < |s| && e == SkipWord(s, j)
    ensures j < e <= |s| && WordsFrom(s, i) == [s[j..e]] + WordsFrom(s, e)
  {
  }

  /** Only whitespace is left from `i` on, so no word is. */
  lemma WordsFromEnd(s: string, i: nat)
    requires i <= |s| && SkipSpace(s, i) == |s|
    ensures WordsFrom(s, i) == []
  {
  }

    /** The decimal digit character for `d`. */
  function DigitChar(d: nat): char
    requires d < 10
  {
    ['0', '1', '2', '3', '4', '5', '6', '7', '8', '9'][d]
  }

  predicate IsDigit(c: char) {
    '0' <= c <= '9'
  }

  function DigitValue(c: char): nat
    requires IsDigit(c)
  {
    c as int - '0' as int
  }

  /** Python's `str(n)` for a non-negative integer: its decimal digits, no leading zero. */
  function DecimalString(n: nat): (s: string)
    ensures |s| >= 1
    ensures forall i :: 0 <= i < |s| ==> IsDigit(s[i])
    ensures s[0] == '0' ==> n == 0
  {
    if n < 10 then [DigitChar(n)] else DecimalString(n / 10) + [DigitChar(n % 10)]
  }

  /** Reads a string of decimal digits back as a number. */
  function DecimalValue(s: string): nat
    requires forall i :: 0 <= i < |s| ==> IsDigit(s[i])
  {
    if s == [] then 0 else 10 * DecimalValue(s[..|s| - 1]) + DigitValue(s[|s| - 1])
  }

  /** `str(n)` names `n` uniquely: reading its digits back gives `n`. */
  lemma {:induction false} DecimalRoundTrip(n: nat)
    ensures DecimalValue(DecimalString(n)) == n
  {
    var s := DecimalString(n);
    if n < 10 {
      DigitRoundTrip(n);
      assert s[..0] == [];
    } else {
      var t := DecimalString(n / 10);
      assert s == t + [DigitChar(n % 10)];
      assert s[..|s| - 1] == t;
      DigitRoundTrip(n % 10);
      DecimalRoundTrip(n / 10);
    }
  }

  lemma DigitRoundTrip(d: nat)
    requires d < 10
    ensures IsDigit(DigitChar(d)) && DigitValue(DigitChar(d)) == d
  {
  }

  lemma DecimalInjective(m: nat, n: nat)
    requires DecimalString(m) == DecimalString(n)
    ensures m == n
  {
    DecimalRoundTrip(m);
    DecimalRoundTrip(n);
  }
}
