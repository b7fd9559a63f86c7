/**
  Word wrapping and cursor arithmetic of the sidebar notepad (src/bar/notepad.rs).

  Every loop of the source is a method here, proved equal to a recursive
  specification function; the lemmas then say what those functions mean:
  no ink is lost, no row is too wide, no layout of the same words is shorter,
  and the cursor conversions undo each other.
*/
module Notepad {
  import opened Common

  datatype DisplayLine = DisplayLine(start: nat, text: string)
  datatype Segment = Segment(start: nat, word: string)
  datatype Range = Range(start: nat, end: nat)

  predicate NoWhitespace(s: string) {
    forall i :: 0 <= i < |s| ==> !IsWhitespace(s[i])
  }

  // ---------------------------------------------------------------- logical lines

  function RangesFrom(text: string, start: nat, idx: nat): seq<Range>
    requires start <= idx <= |text|
    decreases |text| - idx
  {
    if idx == |text| then [Range(start, idx)]
    else if text[idx] == '\n' then [Range(start, idx)] + RangesFrom(text, idx + 1, idx + 1)
    else RangesFrom(text, start, idx + 1)
  }

  function Ranges(text: string): seq<Range> { RangesFrom(text, 0, 0) }

  predicate InText(text: string, r: Range) { r.start <= r.end <= |text| }

  /** `text[r.start..r.end]` has no newline and ends at one, or at the end of the text. */
  ghost predicate IsLine(text: string, r: Range) {
    && InText(text, r)
    && (forall k :: r.start <= k < r.end ==> text[k] != '\n')
    && (r.end < |text| ==> text[r.end] == '\n')
  }

  /** `rs` cuts `text[start..]` at exactly its newlines. */
  ghost predicate CutsAtNewlines(text: string, start: nat, rs: seq<Range>)
    decreases |rs|
  {
    && rs != [] && rs[0].start == start && IsLine(text, rs[0])
    && (if |rs| == 1 then rs[0].end == |text| else rs[0].end < |text| && CutsAtNewlines(text, rs[0].end + 1, rs[1..]))
  }

  lemma {:induction false} RangesFromCut(text: string, start: nat, idx: nat)
    requires start <= idx <= |text| && forall k :: start <= k < idx ==> text[k] != '\n'
    ensures CutsAtNewlines(text, start, RangesFrom(text, start, idx))
    decreases |text| - idx
  {
    if idx < |text| {
      if text[idx] == '\n' {
        RangesFromCut(text, idx + 1, idx + 1);
      } else {
        RangesFromCut(text, start, idx + 1);
      }
    }
  }

  lemma {:induction false} CutIsUnique(text: string, a: seq<Range>, b: seq<Range>, start: nat)
    requires CutsAtNewlines(text, start, a) && CutsAtNewlines(text, start, b)
    ensures a == b
    decreases |a|
  {
    LineEndIsUnique(text, a[0], b[0]);
    if |a| > 1 && |b| > 1 {
      CutIsUnique(text, a[1..], b[1..], a[0].end + 1);
      assert a == [a[0]] + a[1..] && b == [b[0]] + b[1..];
    }
  }

  lemma LineEndIsUnique(text: string, a: Range, b: Range)
    requires IsLine(text, a) && IsLine(text, b) && a.start == b.start
    ensures a == b
  {
  }

  /** Line by line: what a cut says about its ranges. */
  lemma {:induction false} CutMeans(text: string, start: nat, rs: seq<Range>)
    requires CutsAtNewlines(text, start, rs)
    ensures rs[0].start == start && rs[|rs| - 1].end == |text|
    ensures forall i :: 0 <= i < |rs| ==> IsLine(text, rs[i])
    ensures forall i :: 0 < i < |rs| ==> rs[i].start == rs[i - 1].end + 1
    decreases |rs|
  {
    if |rs| > 1 {
      CutMeans(text, rs[0].end + 1, rs[1..]);
      assert forall i :: 0 < i < |rs| ==> rs[i] == rs[1..][i - 1];
    }
  }

  lemma RangesCut(text: string)
    ensures CutsAtNewlines(text, 0, Ranges(text))
    ensures forall i :: 0 <= i < |Ranges(text)| ==> InText(text, Ranges(text)[i])
  {
    RangesFromCut(text, 0, 0);
    CutMeans(text, 0, Ranges(text));
  }

  /** The line ranges are the one cut of the text at its newlines. */
  lemma RangesAreTheOnlyCut(text: string, rs: seq<Range>)
    ensures CutsAtNewlines(text, 0, rs) <==> rs == Ranges(text)
  {
    RangesCut(text);
    if CutsAtNewlines(text, 0, rs) {
      CutIsUnique(text, rs, Ranges(text), 0);
    }
  }

  method LogicalLineRanges(text: string) returns (ranges: seq<Range>)
    ensures ranges == Ranges(text)
  {
    if text == "" {
      return [Range(0, 0)];
    }
    ranges := [];
    var lineStart := 0;
    var idx := 0;
    while idx < |text|
      invariant lineStart <= idx <= |text|
      invariant ranges + RangesFrom(text, lineStart, idx) == Ranges(text)
    {
      if text[idx] == '\n' {
        ranges := ranges + [Range(lineStart, idx)];
        lineStart := idx + 1;
      }
      idx := idx + 1;
    }
    ranges := ranges + [Range(lineStart, idx)];
  }

  // ---------------------------------------------------------------- words

  function WordEnd(line: string, i: nat): (e: nat)
    requires i <= |line|
    ensures i <= e <= |line|
    ensures forall k :: i <= k < e ==> !IsWhitespace(line[k])
    ensures e < |line| ==> IsWhitespace(line[e])
    decreases |line| - i
  {
    if i < |line| && !IsWhitespace(line[i]) then WordEnd(line, i + 1) else i
  }

  function WordsFrom(lineStart: nat, line: string, i: nat): seq<Segment>
    requires i <= |line|
    decreases |line| - i
  {
    if i == |line| then []
    else if IsWhitespace(line[i]) then WordsFrom(lineStart, line, i + 1)
    else
      var e := WordEnd(line, i + 1);
      [Segment(lineStart + i, line[i..e])] + WordsFrom(lineStart, line, e)
  }

  method WordSegments(lineStart: nat, line: string) returns (segments: seq<Segment>)
    ensures segments == WordsFrom(lineStart, line, 0)
  {
    hide WordsFrom;
    segments := [];
    var idx := 0;
    while idx < |line|
      invariant idx <= |line|
      invariant segments + WordsFrom(lineStart, line, idx) == WordsFrom(lineStart, line, 0)
    {
      WordsFromStep(lineStart, line, idx);
      if IsWhitespace(line[idx]) {
        idx := idx + 1;
        continue;
      }
      var wordStart := idx;
      idx := idx + 1;
      while idx < |line| && !IsWhitespace(line[idx])
        invariant wordStart < idx <= |line|
        invariant WordEnd(line, idx) == WordEnd(line, wordStart + 1)
      {
        idx := idx + 1;
      }
      SegmentsAssoc(segments, [Segment(lineStart + wordStart, line[wordStart..idx])], WordsFrom(lineStart, line, idx));
      segments := segments + [Segment(lineStart + wordStart, line[wordStart..idx])];
    }
    NoWordsLeft(lineStart, line);
    assert segments + [] == segments;
  }

  lemma SegmentsAssoc(a: seq<Segment>, b: seq<Segment>, c: seq<Segment>)
    ensures a + (b + c) == (a + b) + c
  {
  }

  lemma NoWordsLeft(lineStart: nat, line: string)
    ensures WordsFrom(lineStart, line, |line|) == []
  {
  }

  /** `word` occurs in `text` at `start`. */
  ghost predicate At(text: string, start: nat, word: string) {
    start + |word| <= |text| && forall i :: 0 <= i < |word| ==> word[i] == text[start + i]
  }

  /** Non-blank words lying in order inside `text[lo..hi]`. */
  ghost predicate WordsOf(text: string, segs: seq<Segment>, lo: nat, hi: nat)
  {
    segs == [] ||
    (var s := segs[0]; var end := s.start + |s.word|;
     && lo <= s.start < end <= hi
     && At(text, s.start, s.word) && NoWhitespace(s.word)
     && WordsOf(text, segs[1..], end, hi))
  }

  lemma {:induction false} WordsFromAreWordsOf(text: string, lo: nat, line: string, i: nat)
    requires At(text, lo, line) && i <= |line|
    ensures WordsOf(text, WordsFrom(lo, line, i), lo + i, lo + |line|)
    decreases |line| - i
  {
    if i < |line| {
      WordsFromStep(lo, line, i);
      hide WordsFrom, WordsOf, WordEnd;
      if IsWhitespace(line[i]) {
        WordsFromAreWordsOf(text, lo, line, i + 1);
        WordsOfWiden(text, WordsFrom(lo, line, i + 1), lo + i, lo + i + 1, lo + |line|);
      } else {
        var e := WordEnd(line, i + 1);
        WordEndFacts(line, i);
        WordsFromAreWordsOf(text, lo, line, e);
        SliceAt(text, lo, line, i, e);
        FirstWordOf(text, Segment(lo + i, line[i..e]), WordsFrom(lo, line, e), lo + i, lo + |line|);
      }
    } else {
      assert WordsFrom(lo, line, i) == [];
    }
  }

  lemma WordEndFacts(line: string, i: nat)
    requires i < |line| && !IsWhitespace(line[i])
    ensures var e := WordEnd(line, i + 1);
      i < e <= |line| && NoWhitespace(line[i..e])
  {
  }

  lemma SliceAt(text: string, lo: nat, line: string, i: nat, e: nat)
    requires At(text, lo, line) && i <= e <= |line|
    ensures At(text, lo + i, line[i..e])
  {
    assert forall k :: 0 <= k < e - i ==> line[i..e][k] == line[i + k] == text[lo + i + k];
  }

  lemma FirstWordOf(text: string, s: Segment, rest: seq<Segment>, lo: nat, hi: nat)
    requires s.word != "" && lo <= s.start && s.start + |s.word| <= hi && At(text, s.start, s.word)
        && NoWhitespace(s.word)
    requires WordsOf(text, rest, s.start + |s.word|, hi)
    ensures WordsOf(text, [s] + rest, lo, hi)
  {
    hide At, NoWhitespace;
    assert ([s] + rest)[1..] == rest;
  }

  lemma {:induction false} WordsFromKeepInk(lo: nat, line: string, i: nat)
    requires i <= |line|
    ensures Ink(WordsFrom(lo, line, i)) == NonBlank(line[i..])
    decreases |line| - i
  {
    if i < |line| {
      if IsWhitespace(line[i]) {
        WordsFromKeepInk(lo, line, i + 1);
      } else {
        var e := WordEnd(line, i + 1);
        WordsFromKeepInk(lo, line, e);
        assert line[i..] == line[i..e] + line[e..];
        NonBlankConcat(line[i..e], line[e..]);
        NonBlankOfWord(line[i..e]);
      }
    }
  }

  /** The word starting at `a` in the line is a maximal run of non-whitespace. */
  ghost predicate IsMaximalRun(line: string, a: nat, word: string) {
    && word != "" && At(line, a, word) && NoWhitespace(word)
    && (a > 0 ==> IsWhitespace(line[a - 1]))
    && (a + |word| < |line| ==> IsWhitespace(line[a + |word|]))
  }

  ghost predicate AreMaximalRuns(lineStart: nat, line: string, segs: seq<Segment>, from: nat) {
    && (forall k :: 0 <= k < |segs| ==>
          segs[k].start >= lineStart + from && IsMaximalRun(line, segs[k].start - lineStart, segs[k].word))
    && (forall k, l :: 0 <= k < l < |segs| ==> segs[k].start < segs[l].start)
  }

  /** The segments are the maximal runs of the line, in order, and between them hold all its visible characters. */
  lemma WordsAreMaximalRuns(lineStart: nat, line: string)
    ensures AreMaximalRuns(lineStart, line, WordsFrom(lineStart, line, 0), 0)
    ensures Ink(WordsFrom(lineStart, line, 0)) == NonBlank(line)
  {
    WordsFromKeepInk(lineStart, line, 0);
    assert line[0..] == line;
    WordsFromAreRuns(lineStart, line, 0);
  }

  lemma {:induction false} WordsFromAreRuns(lineStart: nat, line: string, i: nat)
    requires i <= |line| && (0 < i < |line| ==> IsWhitespace(line[i - 1]) || IsWhitespace(line[i]))
    ensures AreMaximalRuns(lineStart, line, WordsFrom(lineStart, line, i), i)
    decreases |line| - i
  {
    if i < |line| {
      WordsFromStep(lineStart, line, i);
      hide WordsFrom, WordEnd, IsMaximalRun, AreMaximalRuns;
      if IsWhitespace(line[i]) {
        WordsFromAreRuns(lineStart, line, i + 1);
        RunsWiden(lineStart, line, WordsFrom(lineStart, line, i + 1), i + 1, i);
      } else {
        var e := WordEnd(line, i + 1);
        WordEndsRun(line, i);
        WordsFromAreRuns(lineStart, line, e);
        OneRunMore(lineStart, line, Segment(lineStart + i, line[i..e]), WordsFrom(lineStart, line, e), i, e);
      }
    } else {
      assert WordsFrom(lineStart, line, i) == [];
    }
  }

  lemma WordsFromStep(lineStart: nat, line: string, i: nat)
    requires i < |line|
    ensures IsWhitespace(line[i]) ==> WordsFrom(lineStart, line, i) == WordsFrom(lineStart, line, i + 1)
    ensures !IsWhitespace(line[i]) ==>
        var e := WordEnd(line, i + 1);
        WordsFrom(lineStart, line, i) == [Segment(lineStart + i, line[i..e])] + WordsFrom(lineStart, line, e)
  {
  }

  lemma RunsWiden(lineStart: nat, line: string, segs: seq<Segment>, from: nat, from': nat)
    requires from' <= from && AreMaximalRuns(lineStart, line, segs, from)
    ensures AreMaximalRuns(lineStart, line, segs, from')
  {
    hide IsMaximalRun;
  }

  lemma WordEndsRun(line: string, i: nat)
    requires i < |line| && !IsWhitespace(line[i]) && (i > 0 ==> IsWhitespace(line[i - 1]))
    ensures IsMaximalRun(line, i, line[i..WordEnd(line, i + 1)])
    ensures i < WordEnd(line, i + 1) <= |line|
    ensures WordEnd(line, i + 1) < |line| ==> IsWhitespace(line[WordEnd(line, i + 1)])
  {
    hide IsWhitespace;
  }

  lemma OneRunMore(lineStart: nat, line: string, s: Segment, tail: seq<Segment>, i: nat, e: nat)
    requires i < e && s.start == lineStart + i && IsMaximalRun(line, i, s.word)
        && AreMaximalRuns(lineStart, line, tail, e)
    ensures AreMaximalRuns(lineStart, line, [s] + tail, i)
  {
    hide IsMaximalRun;
  }

  lemma WordsOfWiden(text: string, segs: seq<Segment>, lo: nat, lo': nat, hi: nat)
    requires lo <= lo' && WordsOf(text, segs, lo', hi)
    ensures WordsOf(text, segs, lo, hi)
  {
  }

  // ---------------------------------------------------------------- greedy wrap

  function HardBreak(start: nat, word: string, width: nat): seq<DisplayLine>
    requires width > 0
    decreases |word|
  {
    if word == "" then []
    else if |word| <= width then [DisplayLine(start, word)]
    else [DisplayLine(start, word[..width])] + HardBreak(start + width, word[width..], width)
  }

  /** `chunk` holds `word[from..offset]`, and what is left to emit begins with it. */
  ghost predicate Breaking(
      whole: seq<DisplayLine>, out: seq<DisplayLine>, wordStart: nat, word: string, width: nat, from: nat, offset: nat,
      chunk: string)
  {
    && width > 0 && from <= offset <= |word| && offset - from <= width && (offset > 0 ==> offset > from)
    && chunk == word[from..offset]
    && out + HardBreak(wordStart + from, word[from..], width) == whole
  }

  method PushHardBrokenWord(out0: seq<DisplayLine>, wordStart: nat, word: string, width: nat)
    returns (out: seq<DisplayLine>)
    requires width > 0
    ensures out == out0 + HardBreak(wordStart, word, width)
  {
    hide HardBreak, Breaking;
    out := out0;
    ghost var whole := out0 + HardBreak(wordStart, word, width);
    var chunk := "";
    var chunkStart := wordStart;
    var col := 0;
    var offset := 0;
    ghost var from := 0;
    BreakingStarts(out0, wordStart, word, width);
    while offset < |word|
      invariant offset <= |word| && chunkStart == wordStart + from && col == |chunk| == offset - from <= width
      invariant Breaking(whole, out, wordStart, word, width, from, offset, chunk)
    {
      if col >= width {
        PieceEmitted(whole, out, wordStart, word, width, from, offset, chunk);
        out := out + [DisplayLine(chunkStart, chunk)];
        chunk := "";
        chunkStart := wordStart + offset;
        col := 0;
        from := offset;
      } else {
        OneCharMore(whole, out, wordStart, word, width, from, offset, chunk);
      }
      chunk := chunk + [word[offset]];
      col := col + 1;
      offset := offset + 1;
    }
    LastPiece(whole, out, wordStart, word, width, from, chunk);
    if chunk != "" {
      out := out + [DisplayLine(chunkStart, chunk)];
    }
  }

  lemma BreakingStarts(out: seq<DisplayLine>, wordStart: nat, word: string, width: nat)
    requires width > 0
    ensures Breaking(out + HardBreak(wordStart, word, width), out, wordStart, word, width, 0, 0, "")
  {
    assert word[0..] == word && word[0..0] == "";
  }

  lemma OneCharMore(
      whole: seq<DisplayLine>, out: seq<DisplayLine>, wordStart: nat, word: string, width: nat, from: nat, offset: nat,
      chunk: string)
    requires Breaking(whole, out, wordStart, word, width, from, offset, chunk)
    requires offset < |word| && offset - from < width
    ensures Breaking(whole, out, wordStart, word, width, from, offset + 1, chunk + [word[offset]])
  {
    assert word[from..offset + 1] == word[from..offset] + [word[offset]];
  }

  lemma PieceEmitted(
      whole: seq<DisplayLine>, out: seq<DisplayLine>, wordStart: nat, word: string, width: nat, from: nat, offset: nat,
      chunk: string)
    requires Breaking(whole, out, wordStart, word, width, from, offset, chunk)
    requires offset < |word| && offset - from == width
    ensures Breaking(
              whole, out + [DisplayLine(wordStart + from, chunk)], wordStart, word, width, offset, offset + 1,
              "" + [word[offset]])
  {
    hide HardBreak;
    HardBreakStep(wordStart + from, word, from, offset, width);
    RowsAssoc(out, [DisplayLine(wordStart + from, chunk)], HardBreak(wordStart + offset, word[offset..], width));
    assert word[offset..offset + 1] == "" + [word[offset]];
  }

  lemma LastPiece(
      whole: seq<DisplayLine>, out: seq<DisplayLine>, wordStart: nat, word: string, width: nat, from: nat,
      chunk: string)
    requires Breaking(whole, out, wordStart, word, width, from, |word|, chunk)
    ensures whole == if chunk == "" then out else out + [DisplayLine(wordStart + from, chunk)]
  {
    assert word[from..] == chunk;
    HardBreakShort(wordStart + from, chunk, width);
    hide HardBreak;
    Nothing(out);
  }

  lemma HardBreakShort(start: nat, word: string, width: nat)
    requires width > 0 && |word| <= width
    ensures HardBreak(start, word, width) == if word == "" then [] else [DisplayLine(start, word)]
  {
  }

  lemma HardBreakStep(start: nat, word: string, from: nat, to: nat, width: nat)
    requires width > 0 && from + width == to < |word|
    ensures HardBreak(start, word[from..], width)
        == [DisplayLine(start, word[from..to])] + HardBreak(start + width, word[to..], width)
  {
    assert word[from..][..width] == word[from..to] && word[from..][width..] == word[to..];
  }

  function Flush(current: DisplayLine): seq<DisplayLine> {
    if current.text == "" then [] else [current]
  }

  /** What the wrap loop emits for `segs` when `current` is the row being filled. */
  function WrapWords(segs: seq<Segment>, current: DisplayLine, width: nat): seq<DisplayLine>
    requires width > 0
  {
    if segs == [] then Flush(current)
    else
      var s, rest := segs[0], segs[1..];
      if |s.word| > width then
        Flush(current) + HardBreak(s.start, s.word, width) + WrapWords(rest, current.(text := ""), width)
      else if current.text == "" then
        WrapWords(rest, DisplayLine(s.start, s.word), width)
      else if |current.text| + 1 + |s.word| > width then
        [current] + WrapWords(rest, DisplayLine(s.start, s.word), width)
      else
        WrapWords(rest, current.(text := current.text + " " + s.word), width)
  }

  function WrapLine(lineStart: nat, line: string, width: nat): seq<DisplayLine>
    requires width > 0
  {
    var segs := WordsFrom(lineStart, line, 0);
    if segs == [] then [DisplayLine(lineStart, "")] else WrapWords(segs, DisplayLine(lineStart, ""), width)
  }

  method WrapLogicalLine(lineStart: nat, line: string, width: nat, out0: seq<DisplayLine>)
    returns (out: seq<DisplayLine>)
    requires width > 0
    ensures out == out0 + WrapLine(lineStart, line, width)
  {
    hide HardBreak, WordsFrom, WrapWords;
    out := out0;
    var segments := WordSegments(lineStart, line);
    if segments == [] {
      return out + [DisplayLine(lineStart, "")];
    }
    var current, currentStart, col := "", lineStart, 0;
    ghost var whole := out0 + WrapWords(segments, DisplayLine(lineStart, ""), width);
    var i := 0;
    while i < |segments|
      invariant i <= |segments| && col == |current|
      invariant out + WrapWords(segments[i..], DisplayLine(currentStart, current), width) == whole
    {
      var wordStart, word := segments[i].start, segments[i].word;
      ghost var row := DisplayLine(currentStart, current);
      assert segments[i..][0] == segments[i] && segments[i..][1..] == segments[i + 1..];
      WrapWordsStep(segments[i..], row, width);
      var wordLen := |word|;
      i := i + 1;
      if wordLen > width {
        ghost var tail := WrapWords(segments[i..], row.(text := ""), width);
        RowsAssoc(Flush(row), HardBreak(wordStart, word, width), tail);
        RowsAssoc(out, Flush(row), HardBreak(wordStart, word, width) + tail);
        Nothing(out);
        if current != "" {
          out := out + [DisplayLine(currentStart, current)];
          current := "";
          col := 0;
        }
        RowsAssoc(out, HardBreak(wordStart, word, width), tail);
        out := PushHardBrokenWord(out, wordStart, word, width);
        continue;
      }
      var needed := if current == "" then wordLen else col + 1 + wordLen;
      if current != "" && needed > width {
        RowsAssoc(out, [row], WrapWords(segments[i..], DisplayLine(wordStart, word), width));
        out := out + [DisplayLine(currentStart, current)];
        current, currentStart, col := word, wordStart, wordLen;
      } else if current == "" {
        current, currentStart, col := word, wordStart, wordLen;
      } else {
        current := current + " " + word;
        col := needed;
      }
    }
    WrapWordsStep([], DisplayLine(currentStart, current), width);
    assert segments[i..] == [];
    Nothing(out);
    if current != "" {
      out := out + [DisplayLine(currentStart, current)];
    }
  }

  function LineText(text: string, r: Range): string
    requires InText(text, r)
  {
    text[r.start..r.end]
  }

  function WrapRanges(text: string, rs: seq<Range>, width: nat): seq<DisplayLine>
    requires width > 0
    requires forall i :: 0 <= i < |rs| ==> InText(text, rs[i])
  {
    if rs == [] then []
    else WrapLine(rs[0].start, LineText(text, rs[0]), width) + WrapRanges(text, rs[1..], width)
  }

  function Wrapped(text: string, width: nat): seq<DisplayLine> {
    if width == 0 then [DisplayLine(0, "")]
    else RangesCut(text); WrapRanges(text, Ranges(text), width)
  }

  method WrappedDisplayLines(text: string, width: nat) returns (out: seq<DisplayLine>)
    ensures out == Wrapped(text, width)
  {
    hide WrapLine, RangesFrom, WrapRanges, CutsAtNewlines, LineText;
    if width == 0 {
      return [DisplayLine(0, "")];
    }
    var ranges := LogicalLineRanges(text);
    RangesCut(text);
    ghost var whole := WrapRanges(text, ranges, width);
    assert ranges[0..] == ranges;
    Nothing(whole);
    out := [];
    var i := 0;
    while i < |ranges|
      invariant i <= |ranges|
      invariant out + WrapRanges(text, ranges[i..], width) == whole
    {
      WrapRangesStep(text, ranges, i, width);
      RowsAssoc(out, WrapLine(ranges[i].start, LineText(text, ranges[i]), width),
          WrapRanges(text, ranges[i + 1..], width));
      out := WrapLogicalLine(ranges[i].start, LineText(text, ranges[i]), width, out);
      i := i + 1;
    }
    assert ranges[|ranges|..] == [];
    WrapNoRanges(text, width);
    Nothing(out);
    if out == [] {
      WrappedIsNotEmpty(text, width);
      assert false;
    }
  }

  lemma Nothing(rows: seq<DisplayLine>)
    ensures [] + rows == rows == rows + []
  {
  }

  lemma RowsAssoc(a: seq<DisplayLine>, b: seq<DisplayLine>, c: seq<DisplayLine>)
    ensures a + (b + c) == (a + b) + c
  {
  }

  lemma WrapRangesStep(text: string, rs: seq<Range>, i: nat, width: nat)
    requires width > 0 && i < |rs| && forall k :: 0 <= k < |rs| ==> InText(text, rs[k])
    ensures WrapRanges(text, rs[i..], width)
         == WrapLine(rs[i].start, LineText(text, rs[i]), width) + WrapRanges(text, rs[i + 1..], width)
  {
    assert rs[i..][0] == rs[i] && rs[i..][1..] == rs[i + 1..];
  }

  lemma WrapNoRanges(text: string, width: nat)
    requires width > 0
    ensures WrapRanges(text, [], width) == []
  {
  }

  lemma WrappedIsNotEmpty(text: string, width: nat)
    requires width > 0
    ensures Wrapped(text, width) != []
  {
    RangesCut(text);
    var r := Ranges(text)[0];
    WrapLineIsNotEmpty(r.start, LineText(text, r), width);
  }

  // ---------------------------------------------------------------- fidelity

  /** The characters a reader can see: everything but whitespace, in order. */
  function NonBlank(s: string): string {
    if s == "" then "" else (if IsWhitespace(s[0]) then "" else [s[0]]) + NonBlank(s[1..])
  }

  function Ink(segs: seq<Segment>): string {
    if segs == [] then "" else segs[0].word + Ink(segs[1..])
  }

  function RowInk(rows: seq<DisplayLine>): string {
    if rows == [] then "" else NonBlank(rows[0].text) + RowInk(rows[1..])
  }

  /** A row of at most `width` characters that shows, first, the character at its start. */
  ghost predicate RowShows(text: string, row: DisplayLine, width: nat) {
    |row.text| <= width && (row.text != "" ==> row.start < |text| && row.text[0] == text[row.start])
  }

  /** Rows of `text` whose starts strictly increase within `[lo, hi)`. */
  ghost predicate RowsOf(text: string, rows: seq<DisplayLine>, lo: nat, hi: nat, width: nat) {
    rows == [] ||
    (lo <= rows[0].start < hi && RowShows(text, rows[0], width)
        && RowsOf(text, rows[1..], rows[0].start + 1, hi, width))
  }

  lemma {:induction false} RowsOfMeans(text: string, rows: seq<DisplayLine>, lo: nat, hi: nat, width: nat)
    requires RowsOf(text, rows, lo, hi, width)
    ensures forall i :: 0 <= i < |rows| ==> RowShows(text, rows[i], width) && lo <= rows[i].start < hi
    ensures forall i, j :: 0 <= i < j < |rows| ==> rows[i].start < rows[j].start
  {
    if rows != [] {
      RowsOfMeans(text, rows[1..], rows[0].start + 1, hi, width);
      assert forall i :: 0 < i < |rows| ==> rows[i] == rows[1..][i - 1];
    }
  }

  lemma {:induction false} NonBlankConcat(a: string, b: string)
    ensures NonBlank(a + b) == NonBlank(a) + NonBlank(b)
  {
    if a == "" {
      assert a + b == b;
    } else {
      assert (a + b)[1..] == a[1..] + b;
      NonBlankConcat(a[1..], b);
    }
  }

  lemma {:induction false} NonBlankOfWord(s: string)
    requires NoWhitespace(s)
    ensures NonBlank(s) == s
  {
    if s != "" {
      NonBlankOfWord(s[1..]);
    }
  }

  lemma {:induction false} RowInkConcat(a: seq<DisplayLine>, b: seq<DisplayLine>)
    ensures RowInk(a + b) == RowInk(a) + RowInk(b)
  {
    if a == [] {
      assert a + b == b;
    } else {
      assert (a + b)[1..] == a[1..] + b;
      RowInkConcat(a[1..], b);
    }
  }

  lemma {:induction false} RowsOfConcat(
      text: string, a: seq<DisplayLine>, b: seq<DisplayLine>, lo: nat, mid: nat, hi: nat, width: nat)
    requires RowsOf(text, a, lo, mid, width) && RowsOf(text, b, mid, hi, width) && lo <= mid <= hi
    ensures RowsOf(text, a + b, lo, hi, width)
  {
    if a == [] {
      assert a + b == b;
    } else {
      assert (a + b)[0] == a[0] && (a + b)[1..] == a[1..] + b;
      RowsOfConcat(text, a[1..], b, a[0].start + 1, mid, hi, width);
    }
  }

  lemma {:induction false} HardBreakRows(text: string, start: nat, word: string, width: nat)
    requires width > 0 && At(text, start, word)
    ensures RowsOf(text, HardBreak(start, word, width), start, start + |word|, width)
    decreases |word|
  {
    if |word| > width {
      HardBreakRows(text, start + width, word[width..], width);
      RowsOfWiden(text, HardBreak(start + width, word[width..], width), start + 1, start + width, start + |word|,
          start + |word|, width);
    }
  }

  lemma {:induction false} HardBreakInk(start: nat, word: string, width: nat)
    requires width > 0 && NoWhitespace(word)
    ensures RowInk(HardBreak(start, word, width)) == word
    decreases |word|
  {
    hide RowInk, NonBlank, HardBreak;
    if |word| > width {
      var tail := HardBreak(start + width, word[width..], width);
      HardBreakStep(start, word, 0, width, width);
      HardBreakInk(start + width, word[width..], width);
      NonBlankOfWord(word[..width]);
      RowInkFirst(DisplayLine(start, word[..width]), tail);
      Halves(word, width);
    } else {
      HardBreakShort(start, word, width);
      FlushInk(DisplayLine(start, word));
      NonBlankOfWord(word);
    }
  }

  lemma Halves(word: string, k: nat)
    requires k <= |word|
    ensures word == word[..k] + word[k..] && word[0..] == word && word[0..k] == word[..k]
  {
  }

  lemma RowInkFirst(row: DisplayLine, rows: seq<DisplayLine>)
    ensures RowInk([row] + rows) == NonBlank(row.text) + RowInk(rows)
  {
    hide NonBlank;
    assert ([row] + rows)[1..] == rows;
  }

  lemma RowsOfWiden(text: string, rows: seq<DisplayLine>, lo: nat, lo': nat, hi': nat, hi: nat, width: nat)
    requires lo <= lo' && hi' <= hi && RowsOf(text, rows, lo', hi', width)
    ensures RowsOf(text, rows, lo, hi, width)
  {
  }

  ghost predicate RowInProgress(text: string, current: DisplayLine, lo: nat, width: nat) {
    current.text == "" ||
    (current.start < lo <= |text| && current.text[0] == text[current.start] && |current.text| <= width)
  }

  function RowStart(current: DisplayLine, lo: nat): nat {
    if current.text == "" then lo else current.start
  }

  lemma {:induction false} WrapWordsRows(
      text: string, segs: seq<Segment>, current: DisplayLine, lo: nat, hi: nat, width: nat)
    requires width > 0 && lo <= hi <= |text| && WordsOf(text, segs, lo, hi)
    requires RowInProgress(text, current, lo, width)
    ensures RowsOf(text, WrapWords(segs, current, width), RowStart(current, lo), hi, width)
    decreases |segs|
  {
    hide WrapWords, HardBreak, RowsOf, WordsOf, RowInProgress, Flush;
    WrapWordsStep(segs, current, width);
    if segs == [] {
      NoRows(text, lo, hi, width);
      FlushThen(text, current, [], lo, lo, hi, width);
      Nothing(Flush(current));
    } else {
      var s, rest := segs[0], segs[1..];
      var end, next := s.start + |s.word|, DisplayLine(s.start, s.word);
      FirstWord(text, segs, lo, hi);
      if |s.word| > width {
        var empty := current.(text := "");
        var broken, tail := HardBreak(s.start, s.word, width), WrapWords(rest, empty, width);
        EmptyInProgress(text, empty, end, width);
        HardBreakRows(text, s.start, s.word, width);
        WrapWordsRows(text, rest, empty, end, hi, width);
        RowsOfConcat(text, broken, tail, s.start, end, hi, width);
        FlushThen(text, current, broken + tail, lo, s.start, hi, width);
        RowsAssoc(Flush(current), broken, tail);
      } else {
        NextInProgress(text, s, width);
        if current.text == "" || |current.text| + 1 + |s.word| > width {
          WrapWordsRows(text, rest, next, end, hi, width);
          FlushThen(text, current, WrapWords(rest, next, width), lo, s.start, hi, width);
          EmptyFlush(current, WrapWords(rest, next, width));
        } else {
          LongerInProgress(text, current, s, lo, width);
          WrapWordsRows(text, rest, current.(text := current.text + " " + s.word), end, hi, width);
        }
      }
    }
  }

  lemma NoRows(text: string, lo: nat, hi: nat, width: nat)
    ensures RowsOf(text, [], lo, hi, width)
  {
  }

  lemma EmptyFlush(current: DisplayLine, rows: seq<DisplayLine>)
    ensures current.text == "" ==> Flush(current) + rows == rows
  {
  }

  lemma FirstWord(text: string, segs: seq<Segment>, lo: nat, hi: nat)
    requires segs != [] && hi <= |text| && WordsOf(text, segs, lo, hi)
    ensures var s := segs[0]; var end := s.start + |s.word|;
      lo <= s.start < end <= hi && At(text, s.start, s.word) && WordsOf(text, segs[1..], end, hi)
  {
  }

  lemma EmptyInProgress(text: string, empty: DisplayLine, lo: nat, width: nat)
    requires empty.text == ""
    ensures RowInProgress(text, empty, lo, width)
  {
  }

  lemma NextInProgress(text: string, s: Segment, width: nat)
    requires s.word != "" && |s.word| <= width && At(text, s.start, s.word)
    ensures RowInProgress(text, DisplayLine(s.start, s.word), s.start + |s.word|, width)
  {
    assert s.word[0] == text[s.start];
  }

  lemma LongerInProgress(text: string, current: DisplayLine, s: Segment, lo: nat, width: nat)
    requires current.text != "" && RowInProgress(text, current, lo, width)
    requires lo <= s.start && s.start + |s.word| <= |text| && |current.text| + 1 + |s.word| <= width
    ensures RowInProgress(text, current.(text := current.text + " " + s.word), s.start + |s.word|, width)
  {
  }

  /** The row in progress goes before rows that start later. */
  lemma FlushThen(
      text: string, current: DisplayLine, rows: seq<DisplayLine>, lo: nat, mid: nat, hi: nat, width: nat)
    requires RowInProgress(text, current, lo, width) && RowsOf(text, rows, mid, hi, width) && lo <= mid && lo <= hi
    ensures RowsOf(text, Flush(current) + rows, RowStart(current, lo), hi, width)
  {
    EmptyFlush(current, rows);
    if current.text == "" {
      RowsOfWiden(text, rows, lo, mid, hi, hi, width);
    } else {
      RowsOfWiden(text, rows, current.start + 1, mid, hi, hi, width);
      assert (Flush(current) + rows)[1..] == rows;
    }
  }

  lemma FlushInk(current: DisplayLine)
    ensures RowInk(Flush(current)) == NonBlank(current.text)
  {
    if current.text != "" {
      assert Flush(current)[1..] == [];
    }
  }

  lemma JoinInk(a: string, word: string)
    requires NoWhitespace(word)
    ensures NonBlank(a + " " + word) == NonBlank(a) + word
  {
    NonBlankConcat(a + " ", word);
    NonBlankConcat(a, " ");
    NonBlankOfWord(word);
  }

  lemma BrokenInk(current: DisplayLine, s: Segment, tail: seq<DisplayLine>, width: nat)
    requires width > 0 && NoWhitespace(s.word)
    ensures RowInk(Flush(current) + HardBreak(s.start, s.word, width) + tail)
        == NonBlank(current.text) + (s.word + RowInk(tail))
  {
    hide HardBreak, RowInk, NonBlank, Flush;
    var broken := HardBreak(s.start, s.word, width);
    ConcatAssoc(NonBlank(current.text), s.word, RowInk(tail));
    RowInkConcat(Flush(current) + broken, tail);
    RowInkConcat(Flush(current), broken);
    FlushInk(current);
    HardBreakInk(s.start, s.word, width);
  }

  lemma ConcatAssoc(a: string, b: string, c: string)
    ensures (a + b) + c == a + (b + c)
  {
  }

  lemma {:induction false} WrapWordsInk(segs: seq<Segment>, current: DisplayLine, width: nat)
    requires width > 0 && forall i :: 0 <= i < |segs| ==> NoWhitespace(segs[i].word)
    ensures RowInk(WrapWords(segs, current, width)) == NonBlank(current.text) + Ink(segs)
    decreases |segs|
  {
    hide NonBlank, RowInk, WrapWords, HardBreak, Flush;
    WrapWordsStep(segs, current, width);
    FlushInk(current);
    if segs != [] {
      var s, rest := segs[0], segs[1..];
      assert NoWhitespace(s.word);
      NonBlankOfWord("");
      if |s.word| > width {
        WrapWordsInk(rest, current.(text := ""), width);
        BrokenInk(current, s, WrapWords(rest, current.(text := ""), width), width);
      } else if current.text == "" || |current.text| + 1 + |s.word| > width {
        WrapWordsInk(rest, DisplayLine(s.start, s.word), width);
        NonBlankOfWord(s.word);
        RowInkConcat(Flush(current), WrapWords(rest, DisplayLine(s.start, s.word), width));
      } else {
        WrapWordsInk(rest, current.(text := current.text + " " + s.word), width);
        JoinInk(current.text, s.word);
        ConcatAssoc(NonBlank(current.text), s.word, Ink(rest));
      }
    }
  }

  lemma WrapLineRows(text: string, lo: nat, line: string, width: nat)
    requires width > 0 && At(text, lo, line)
    ensures RowsOf(text, WrapLine(lo, line, width), lo, lo + |line| + 1, width)
  {
    var segs := WordsFrom(lo, line, 0);
    WordsFromAreWordsOf(text, lo, line, 0);
    if segs != [] {
      WrapWordsRows(text, segs, DisplayLine(lo, ""), lo, lo + |line|, width);
      RowsOfWiden(text, WrapLine(lo, line, width), lo, lo, lo + |line|, lo + |line| + 1, width);
    }
  }

  lemma WrapLineInk(lo: nat, line: string, width: nat)
    requires width > 0
    ensures RowInk(WrapLine(lo, line, width)) == NonBlank(line)
  {
    var segs := WordsFrom(lo, line, 0);
    assert line[0..] == line;
    WordsFromKeepInk(lo, line, 0);
    WordsFromAreWords(lo, line, 0);
    if segs != [] {
      WrapWordsInk(segs, DisplayLine(lo, ""), width);
    }
  }

  lemma {:induction false} WordsFromAreWords(lo: nat, line: string, i: nat)
    requires i <= |line|
    ensures forall k :: 0 <= k < |WordsFrom(lo, line, i)| ==>
        NoWhitespace(WordsFrom(lo, line, i)[k].word) && WordsFrom(lo, line, i)[k].word != ""
    decreases |line| - i
  {
    if i < |line| {
      WordsFromAreWords(lo, line, if IsWhitespace(line[i]) then i + 1 else WordEnd(line, i + 1));
    }
  }

  lemma WrapLineIsNotEmpty(lo: nat, line: string, width: nat)
    requires width > 0
    ensures WrapLine(lo, line, width) != []
  {
    WordsFromAreWords(lo, line, 0);
    if WordsFrom(lo, line, 0) != [] {
      WrapWordsNonEmpty(WordsFrom(lo, line, 0), DisplayLine(lo, ""), width);
    }
  }

  lemma {:induction false} WrapWordsNonEmpty(segs: seq<Segment>, current: DisplayLine, width: nat)
    requires width > 0 && (current.text != "" || segs != []) && forall i :: 0 <= i < |segs| ==> segs[i].word != ""
    ensures WrapWords(segs, current, width) != []
    decreases |segs|
  {
    if segs != [] && |segs[0].word| <= width {
      var s, rest := segs[0], segs[1..];
      WrapWordsNonEmpty(rest, DisplayLine(s.start, s.word), width);
      WrapWordsNonEmpty(rest, current.(text := current.text + " " + s.word), width);
    }
  }

  lemma {:induction false} WrapRangesRows(text: string, rs: seq<Range>, start: nat, width: nat)
    requires width > 0 && CutsAtNewlines(text, start, rs)
    requires forall i :: 0 <= i < |rs| ==> InText(text, rs[i])
    ensures RowsOf(text, WrapRanges(text, rs, width), start, |text| + 1, width)
    decreases |rs|
  {
    hide WrapLine;
    var line, tail := LineText(text, rs[0]), WrapRanges(text, rs[1..], width);
    WrapLineRows(text, start, line, width);
    if |rs| > 1 {
      WrapRangesRows(text, rs[1..], rs[0].end + 1, width);
    }
    assert RowsOf(text, tail, rs[0].end + 1, |text| + 1, width);
    RowsOfConcat(text, WrapLine(start, line, width), tail, start, rs[0].end + 1, |text| + 1, width);
  }

  function NonBlankIn(text: string, lo: nat, hi: nat): string
    requires lo <= hi <= |text|
    decreases hi - lo
  {
    if lo == hi then "" else (if IsWhitespace(text[lo]) then "" else [text[lo]]) + NonBlankIn(text, lo + 1, hi)
  }

  lemma {:induction false} NonBlankOfSlice(text: string, lo: nat, hi: nat)
    requires lo <= hi <= |text|
    ensures NonBlankIn(text, lo, hi) == NonBlank(text[lo..hi])
    decreases hi - lo
  {
    if lo < hi {
      NonBlankOfSlice(text, lo + 1, hi);
      assert text[lo..hi][1..] == text[lo + 1..hi];
    }
  }

  lemma {:induction false} NonBlankSplit(text: string, lo: nat, mid: nat, hi: nat)
    requires lo <= mid <= hi <= |text|
    ensures NonBlankIn(text, lo, hi) == NonBlankIn(text, lo, mid) + NonBlankIn(text, mid, hi)
    decreases mid - lo
  {
    if lo < mid {
      NonBlankSplit(text, lo + 1, mid, hi);
    }
  }

  lemma RowInkCons(lo: nat, line: string, tail: seq<DisplayLine>, width: nat)
    requires width > 0
    ensures RowInk(WrapLine(lo, line, width) + tail) == NonBlank(line) + RowInk(tail)
  {
    WrapLineInk(lo, line, width);
    RowInkConcat(WrapLine(lo, line, width), tail);
  }

  lemma {:induction false} WrapRangesInk(text: string, rs: seq<Range>, start: nat, width: nat)
    requires width > 0 && CutsAtNewlines(text, start, rs)
    requires forall i :: 0 <= i < |rs| ==> InText(text, rs[i])
    ensures RowInk(WrapRanges(text, rs, width)) == NonBlankIn(text, start, |text|)
    decreases |rs|
  {
    hide NonBlank, WrapLine;
    var end := rs[0].end;
    NonBlankSplit(text, start, end, |text|);
    NonBlankOfSlice(text, start, end);
    RowInkCons(start, LineText(text, rs[0]), WrapRanges(text, rs[1..], width), width);
    if |rs| > 1 {
      WrapRangesInk(text, rs[1..], end + 1, width);
    }
  }

  /** Wrapping at any positive width shows every visible character of the text, once and in order. */
  lemma WrappedKeepsInk(text: string, width: nat)
    requires width > 0
    ensures RowInk(Wrapped(text, width)) == NonBlank(text)
  {
    RangesCut(text);
    WrapRangesInk(text, Ranges(text), 0, width);
    NonBlankOfSlice(text, 0, |text|);
    assert text[0..|text|] == text;
  }

  /**
    At any positive width there is a row, no row is too wide, each shows the character at its start, and starts strictly
    increase.
  */
  lemma WrappedRowsFit(text: string, width: nat)
    requires width > 0
    ensures Wrapped(text, width) != []
    ensures forall i :: 0 <= i < |Wrapped(text, width)| ==>
        RowShows(text, Wrapped(text, width)[i], width) && Wrapped(text, width)[i].start <= |text|
    ensures forall i, j :: 0 <= i < j < |Wrapped(text, width)| ==>
        Wrapped(text, width)[i].start < Wrapped(text, width)[j].start
  {
    var rows := Wrapped(text, width);
    WrappedIsNotEmpty(text, width);
    assert RowsOf(text, rows, 0, |text| + 1, width) by {
      RangesCut(text);
      WrapRangesRows(text, Ranges(text), 0, width);
    }
    RowsOfMeans(text, rows, 0, |text| + 1, width);
  }

  // ---------------------------------------------------------------- optimality

  /** One entry of a layout: words sharing a row, or one over-long word cut into pieces, a row each. */
  datatype Row = Fit(words: seq<Segment>) | Broken(word: Segment, pieces: seq<string>)

  /** The words of one row, a space between neighbours. */
  function Join(words: seq<Segment>): string {
    if words == [] then ""
    else if |words| == 1 then words[0].word
    else words[0].word + " " + Join(words[1..])
  }

  function Concat(pieces: seq<string>): string {
    if pieces == [] then "" else pieces[0] + Concat(pieces[1..])
  }

  function Content(layout: seq<Row>): seq<Segment> {
    if layout == [] then []
    else (match layout[0] case Fit(words) => words case Broken(word, _) => [word]) + Content(layout[1..])
  }

  /** The texts of the display rows that a layout describes. */
  function Render(layout: seq<Row>): seq<string> {
    if layout == [] then []
    else (match layout[0] case Fit(words) => [Join(words)] case Broken(_, pieces) => pieces) + Render(layout[1..])
  }

  ghost predicate ValidRow(row: Row, width: nat) {
    match row
    case Fit(words) => |Join(words)| <= width
    case Broken(word, pieces) =>
      |word.word| > width && Concat(pieces) == word.word && forall i :: 0 <= i < |pieces| ==> |pieces[i]| <= width
  }

  /** Any way of setting `segs`, in order, in rows of at most `width` characters, long words alone. */
  ghost predicate IsLayout(layout: seq<Row>, segs: seq<Segment>, width: nat) {
    Content(layout) == segs && forall i :: 0 <= i < |layout| ==> ValidRow(layout[i], width)
  }

  lemma {:induction false} HardBreakIsShortest(start: nat, word: string, pieces: seq<string>, width: nat)
    requires width > 0 && Concat(pieces) == word
    requires forall i :: 0 <= i < |pieces| ==> |pieces[i]| <= width
    ensures |HardBreak(start, word, width)| <= |pieces|
    decreases |pieces|
  {
    if pieces != [] && word != "" {
      var rest := Concat(pieces[1..]);
      assert word == pieces[0] + rest;
      HardBreakIsShortest(start, rest, pieces[1..], width);
      if |word| > width {
        HardBreakMonotone(start + width, word[width..], start, rest, width);
      }
    }
  }

  lemma {:induction false} HardBreakMonotone(start: nat, word: string, start': nat, word': string, width: nat)
    requires width > 0 && |word| <= |word'|
    ensures |HardBreak(start, word, width)| <= |HardBreak(start', word', width)|
    decreases |word|
  {
    if |word| > width {
      HardBreakMonotone(start + width, word[width..], start' + width, word'[width..], width);
    }
  }

  ghost predicate NonEmptyWords(segs: seq<Segment>) {
    forall i :: 0 <= i < |segs| ==> segs[i].word != ""
  }

  /** A fuller row in progress never leads to fewer rows, and starting on an empty one saves at most one. */
  lemma {:induction false} FullerRowCostsMore(
      segs: seq<Segment>, a: DisplayLine, b: DisplayLine, empty: DisplayLine, width: nat)
    requires width > 0 && NonEmptyWords(segs) && |a.text| <= |b.text| && empty.text == ""
    ensures |WrapWords(segs, a, width)| <= |WrapWords(segs, b, width)| <= 1 + |WrapWords(segs, empty, width)|
    decreases |segs|
  {
    if segs != [] {
      var s, rest := segs[0], segs[1..];
      if |s.word| > width {
        FullerRowCostsMore(rest, a.(text := ""), b.(text := ""), empty, width);
        FullerRowCostsMore(rest, b.(text := ""), empty, empty, width);
      } else {
        var next := DisplayLine(s.start, s.word);
        var a' := if a.text == "" then next else a.(text := a.text + " " + s.word);
        var b' := if b.text == "" then next else b.(text := b.text + " " + s.word);
        FullerRowCostsMore(rest, a', b', empty, width);
        FullerRowCostsMore(rest, next, a', empty, width);
        FullerRowCostsMore(rest, next, b', empty, width);
        FullerRowCostsMore(rest, empty, next, empty, width);
      }
    }
  }

  /** Greedy takes a group that fits onto the row in progress without emitting anything. */
  lemma {:induction false} GroupStaysOnRow(words: seq<Segment>, rest: seq<Segment>, current: DisplayLine, width: nat)
    returns (after: DisplayLine)
    requires width > 0 && NonEmptyWords(words) && words != []
    requires (if current.text == "" then 0 else |current.text| + 1) + |Join(words)| <= width
    ensures WrapWords(words + rest, current, width) == WrapWords(rest, after, width)
    ensures after.text != "" && |after.text| == (if current.text == "" then 0 else |current.text| + 1) + |Join(words)|
    decreases |words|
  {
    var s := words[0];
    assert (words + rest)[0] == s && (words + rest)[1..] == words[1..] + rest;
    after := if current.text == "" then DisplayLine(s.start, s.word) else current.(text := current.text + " " + s.word);
    if |words| > 1 {
      after := GroupStaysOnRow(words[1..], rest, after, width);
    } else {
      assert words[1..] + rest == rest;
    }
  }

  lemma {:induction false} GreedyIsShortest(segs: seq<Segment>, layout: seq<Row>, current: DisplayLine, width: nat)
    requires width > 0 && NonEmptyWords(segs) && current.text == "" && IsLayout(layout, segs, width)
    ensures |WrapWords(segs, current, width)| <= |Render(layout)|
    decreases |layout|
  {
    if layout != [] {
      var rest := Content(layout[1..]);
      match layout[0]
      case Fit(words) =>
        assert segs == words + rest;
        assert forall i :: 0 <= i < |words| ==> words[i] == segs[i];
        assert forall i :: 0 <= i < |rest| ==> rest[i] == segs[|words| + i];
        GreedyIsShortest(rest, layout[1..], current, width);
        if words == [] {
          assert segs == rest;
        } else {
          var after := GroupStaysOnRow(words, rest, current, width);
          FullerRowCostsMore(rest, current, after, current, width);
        }
      case Broken(word, pieces) =>
        assert segs == [word] + rest && segs[0] == word && segs[1..] == rest;
        assert forall i :: 0 <= i < |rest| ==> rest[i] == segs[1 + i];
        GreedyIsShortest(rest, layout[1..], current, width);
        HardBreakIsShortest(word.start, word.word, pieces, width);
    }
  }

  function Texts(rows: seq<DisplayLine>): seq<string> {
    seq(|rows|, i requires 0 <= i < |rows| => rows[i].text)
  }

  /** The greedy rows are themselves the rendering of a layout. */
  lemma {:induction false} GreedyIsALayout(segs: seq<Segment>, current: DisplayLine, group: seq<Segment>, width: nat)
    returns (layout: seq<Row>)
    requires width > 0 && NonEmptyWords(segs) && NonEmptyWords(group)
    requires (current.text == "" <==> group == []) && current.text == Join(group) && |current.text| <= width
    ensures IsLayout(layout, group + segs, width)
    ensures Render(layout) == Texts(WrapWords(segs, current, width))
    decreases |segs|
  {
    hide HardBreak, IsLayout, Render, Texts, Join, WrapWords, NonEmptyWords, Flush;
    WrapWordsStep(segs, current, width);
    if segs == [] {
      assert IsLayout([], [], width) && Render([]) == Texts([]) by { EmptyLayout(width); }
      layout := FlushLayout(current, group, [], [], [], width);
      assert group + [] == group + segs;
      Nothing(Flush(current));
    } else {
      var s, rest := segs[0], segs[1..];
      var next := DisplayLine(s.start, s.word);
      assert [s] + rest == segs;
      FirstNonEmpty(segs);
      JoinOne(s);
      if |s.word| > width {
        layout := GreedyIsALayout(rest, current.(text := ""), [], width);
        assert [] + rest == rest;
        layout := BrokenLayout(s, rest, WrapWords(rest, current.(text := ""), width), layout, width);
        var tail := HardBreak(s.start, s.word, width) + WrapWords(rest, current.(text := ""), width);
        layout := FlushLayout(current, group, segs, tail, layout, width);
        RowsAssoc(Flush(current), HardBreak(s.start, s.word, width), WrapWords(rest, current.(text := ""), width));
      } else if current.text == "" {
        layout := GreedyIsALayout(rest, next, [s], width);
        assert group + segs == segs;
      } else if |current.text| + 1 + |s.word| > width {
        layout := GreedyIsALayout(rest, next, [s], width);
        layout := FlushLayout(current, group, segs, WrapWords(rest, next, width), layout, width);
      } else {
        JoinOfAppend(group, s);
        AppendNonEmpty(group, s);
        layout := GreedyIsALayout(rest, current.(text := current.text + " " + s.word), group + [s], width);
        assert (group + [s]) + rest == group + ([s] + rest);
      }
    }
  }

  lemma WrapWordsStep(segs: seq<Segment>, current: DisplayLine, width: nat)
    requires width > 0
    ensures segs == [] ==> WrapWords(segs, current, width) == Flush(current)
    ensures segs != [] ==>
        var s, rest := segs[0], segs[1..];
        WrapWords(segs, current, width) ==
          if |s.word| > width then
            Flush(current) + HardBreak(s.start, s.word, width) + WrapWords(rest, current.(text := ""), width)
          else if current.text == "" then WrapWords(rest, DisplayLine(s.start, s.word), width)
          else if |current.text| + 1 + |s.word| > width then
            Flush(current) + WrapWords(rest, DisplayLine(s.start, s.word), width)
          else WrapWords(rest, current.(text := current.text + " " + s.word), width)
  {
  }

  lemma FirstNonEmpty(segs: seq<Segment>)
    requires NonEmptyWords(segs) && segs != []
    ensures segs[0].word != "" && NonEmptyWords(segs[1..]) && NonEmptyWords([segs[0]]) && NonEmptyWords([])
  {
  }

  lemma AppendNonEmpty(segs: seq<Segment>, s: Segment)
    requires NonEmptyWords(segs) && s.word != ""
    ensures NonEmptyWords(segs + [s])
  {
  }

  lemma JoinOne(s: Segment)
    ensures Join([s]) == s.word && Join([]) == ""
  {
  }

  lemma EmptyLayout(width: nat)
    ensures IsLayout([], [], width) && Render([]) == Texts([])
  {
  }

  lemma BrokenLayout(s: Segment, rest: seq<Segment>, rows: seq<DisplayLine>, tail: seq<Row>, width: nat)
    returns (layout: seq<Row>)
    requires width > 0 && |s.word| > width && IsLayout(tail, rest, width) && Render(tail) == Texts(rows)
    ensures IsLayout(layout, [s] + rest, width)
    ensures Render(layout) == Texts(HardBreak(s.start, s.word, width) + rows)
  {
    hide HardBreak;
    HardBreakPieces(s.start, s.word, width);
    layout := [Broken(s, Texts(HardBreak(s.start, s.word, width)))] + tail;
  }

  lemma FlushLayout(
      current: DisplayLine, group: seq<Segment>, segs: seq<Segment>, rows: seq<DisplayLine>, tail: seq<Row>, width: nat)
    returns (layout: seq<Row>)
    requires IsLayout(tail, segs, width) && Render(tail) == Texts(rows)
    requires (current.text == "" <==> group == []) && current.text == Join(group) && |current.text| <= width
    ensures IsLayout(layout, group + segs, width)
    ensures Render(layout) == Texts(Flush(current) + rows)
  {
    hide IsLayout, Render, Join, Texts;
    if group == [] {
      layout := tail;
      assert group + segs == segs && Flush(current) + rows == rows;
    } else {
      layout := [Fit(group)] + tail;
      RowFirst(Fit(group), tail, segs, width);
      TextsCons(current, rows);
      assert Flush(current) == [current];
    }
  }

  lemma RowFirst(row: Row, tail: seq<Row>, segs: seq<Segment>, width: nat)
    requires ValidRow(row, width) && IsLayout(tail, segs, width)
    ensures IsLayout([row] + tail, (match row case Fit(words) => words case Broken(word, _) => [word]) + segs, width)
    ensures Render([row] + tail)
        == (match row case Fit(words) => [Join(words)] case Broken(_, pieces) => pieces) + Render(tail)
  {
    hide ValidRow;
    assert ([row] + tail)[1..] == tail;
  }

  lemma TextsCons(row: DisplayLine, rows: seq<DisplayLine>)
    ensures Texts([row] + rows) == [row.text] + Texts(rows)
  {
  }

  lemma {:induction false} JoinOfAppend(words: seq<Segment>, s: Segment)
    requires words != []
    ensures Join(words + [s]) == Join(words) + " " + s.word
  {
    if |words| > 1 {
      assert (words + [s])[1..] == words[1..] + [s];
      JoinOfAppend(words[1..], s);
    } else {
      assert (words + [s])[1..] == [s];
    }
  }

  lemma {:induction false} HardBreakPieces(start: nat, word: string, width: nat)
    requires width > 0
    ensures var pieces := Texts(HardBreak(start, word, width));
      Concat(pieces) == word && forall i :: 0 <= i < |pieces| ==> |pieces[i]| <= width
    decreases |word|
  {
    var pieces := Texts(HardBreak(start, word, width));
    if |word| > width {
      HardBreakPieces(start + width, word[width..], width);
      assert pieces[1..] == Texts(HardBreak(start + width, word[width..], width));
      assert word == word[..width] + word[width..];
    } else if word != "" {
      assert pieces[1..] == [];
    }
  }

  /**
    A logical line with words is shown as the rendering of one of its layouts, and no layout of it is shorter; layouts
    set over-long words on rows of their own. A blank line takes one empty row.
  */
  lemma WrapIsShortest(lineStart: nat, line: string, width: nat)
    requires width > 0
    ensures var words := WordsFrom(lineStart, line, 0); var rows := Texts(WrapLine(lineStart, line, width));
      if words == [] then rows == [""]
      else && (exists layout :: IsLayout(layout, words, width) && rows == Render(layout))
           && (forall layout :: IsLayout(layout, words, width) ==> |rows| <= |Render(layout)|)
  {
    var words, start := WordsFrom(lineStart, line, 0), DisplayLine(lineStart, "");
    if words != [] {
      WordsFromAreWords(lineStart, line, 0);
      forall layout | IsLayout(layout, words, width) ensures |WrapWords(words, start, width)| <= |Render(layout)| {
        GreedyIsShortest(words, layout, start, width);
      }
      assert [] + words == words;
      var layout := GreedyIsALayout(words, start, [], width);
    }
  }

  function WordTexts(segs: seq<Segment>): (r: seq<string>)
    ensures |r| == |segs| && forall i :: 0 <= i < |r| ==> r[i] == segs[i].word
  {
    seq(|segs|, i requires 0 <= i < |segs| => segs[i].word)
  }

  /** The words shown by rows of text. */
  function AllWords(rows: seq<string>): seq<string> {
    if rows == [] then [] else WordTexts(WordsFrom(0, rows[0], 0)) + AllWords(rows[1..])
  }

  /** However the words of a line, none of them cut, are spread over rows that fit, wrapping takes no more rows. */
  lemma NoRowsAreFewer(lineStart: nat, line: string, width: nat, rows: seq<string>)
    requires width > 0 && rows != [] && forall i :: 0 <= i < |rows| ==> |rows[i]| <= width
    requires AllWords(rows) == WordTexts(WordsFrom(lineStart, line, 0))
    ensures |WrapLine(lineStart, line, width)| <= |rows|
  {
    hide AllWords, WordsFrom, WrapWords;
    var words := WordsFrom(lineStart, line, 0);
    if words != [] {
      var layout := RowsAreALayout(words, rows, width);
      WordsFromAreWords(lineStart, line, 0);
      GreedyIsShortest(words, layout, DisplayLine(lineStart, ""), width);
    }
  }

  lemma {:induction false} RowsAreALayout(segs: seq<Segment>, rows: seq<string>, width: nat) returns (layout: seq<Row>)
    requires (forall i :: 0 <= i < |rows| ==> |rows[i]| <= width) && AllWords(rows) == WordTexts(segs)
    ensures IsLayout(layout, segs, width) && |Render(layout)| == |rows|
    decreases |rows|
  {
    if rows == [] {
      layout := [];
      EmptyLayout(width);
      assert segs == [];
    } else {
      var shown := WordsFrom(0, rows[0], 0);
      var group, rest := segs[..|shown|], segs[|shown|..];
      assert WordTexts(segs)[..|shown|] == WordTexts(shown) && WordTexts(segs)[|shown|..] == AllWords(rows[1..]);
      assert WordTexts(group) == WordTexts(shown) && WordTexts(rest) == AllWords(rows[1..]);
      hide WordsFrom, AllWords, IsLayout, Render, Join;
      var tail := RowsAreALayout(rest, rows[1..], width);
      JoinIsNoLonger(0, rows[0], 0);
      JoinOfSameWords(group, shown);
      RowFirst(Fit(group), tail, rest, width);
      assert group + rest == segs;
      layout := [Fit(group)] + tail;
    }
  }

  lemma {:induction false} JoinOfSameWords(a: seq<Segment>, b: seq<Segment>)
    requires WordTexts(a) == WordTexts(b)
    ensures Join(a) == Join(b)
  {
    assert |WordTexts(a)| == |a| == |b|;
    if a != [] {
      assert WordTexts(a)[0] == a[0].word == b[0].word;
      assert WordTexts(a[1..]) == WordTexts(a)[1..] && WordTexts(b[1..]) == WordTexts(b)[1..];
      JoinOfSameWords(a[1..], b[1..]);
    }
  }

  lemma {:induction false} JoinIsNoLonger(lo: nat, line: string, i: nat)
    requires i <= |line|
    ensures |Join(WordsFrom(lo, line, i))| <= |line| - i
    decreases |line| - i
  {
    if i < |line| {
      WordsFromStep(lo, line, i);
      if IsWhitespace(line[i]) {
        JoinIsNoLonger(lo, line, i + 1);
      } else {
        var e := WordEnd(line, i + 1);
        WordEndFacts(line, i);
        if e < |line| {
          WordsFromStep(lo, line, e);
          JoinIsNoLonger(lo, line, e + 1);
        } else {
          NoWordsLeft(lo, line);
        }
        hide WordsFrom, WordEnd;
        assert ([Segment(lo + i, line[i..e])] + WordsFrom(lo, line, e))[1..] == WordsFrom(lo, line, e);
      }
    }
  }

  /** Cutting an over-long word so that a piece of it shares a row could save one: greedy wrapping does not do that. */
  lemma OverlongWordStandsAlone()
    ensures Texts(WrapLine(0, "a bcde", 3)) == ["a", "bcd", "e"]
    ensures NonBlank("a b") + NonBlank("cde") == NonBlank("a bcde") && |"a b"| <= 3 && |"cde"| <= 3
  {
    WordsOfExample();
    BreakOfExample();
    InkOfExample();
    hide WordsFrom, NonBlank, HardBreak, WrapWords;
    var a, rest := Segment(0, "a"), [Segment(2, "bcde")];
    assert ([a] + rest)[1..] == rest && rest[1..] == [];
    WrapWordsStep([a] + rest, DisplayLine(0, ""), 3);
    WrapWordsStep(rest, DisplayLine(0, "a"), 3);
    WrapWordsStep([], DisplayLine(0, ""), 3);
    var rows := [DisplayLine(0, "a"), DisplayLine(2, "bcd"), DisplayLine(5, "e")];
    assert WrapLine(0, "a bcde", 3) == rows;
    assert Texts(rows) == ["a", "bcd", "e"];
  }

  lemma BreakOfExample()
    ensures HardBreak(2, "bcde", 3) == [DisplayLine(2, "bcd"), DisplayLine(5, "e")]
  {
    HardBreakStep(2, "bcde", 0, 3, 3);
    HardBreakShort(5, "e", 3);
    hide HardBreak;
    assert "bcde"[0..] == "bcde" && "bcde"[0..3] == "bcd" && "bcde"[3..] == "e";
  }

  lemma InkOfExample()
    ensures NonBlank("a b") + NonBlank("cde") == NonBlank("a bcde")
  {
    NonBlankConcat("a b", "cde");
    hide NonBlank;
    assert "a b" + "cde" == "a bcde";
  }

  lemma WordsOfExample()
    ensures WordsFrom(0, "a bcde", 0) == [Segment(0, "a")] + [Segment(2, "bcde")]
  {
    var line := "a bcde";
    WordsFromStep(0, line, 0);
    WordsFromStep(0, line, 1);
    WordsFromStep(0, line, 2);
    NoWordsLeft(0, line);
    hide WordsFrom;
    assert line[0..1] == "a" && line[2..6] == "bcde";
    assert WordEnd(line, 1) == 1;
    assert WordEnd(line, 6) == 6 && WordEnd(line, 5) == 6 && WordEnd(line, 4) == 6 && WordEnd(line, 3) == 6;
  }

  // ---------------------------------------------------------------- cursor

  function Clamp(text: string, cursor: nat): nat { if cursor <= |text| then cursor else |text| }

  /** `(line, col)` names the position of `cursor`, clamped to the text, within the line ranges. */
  ghost predicate AtLineCol(text: string, cursor: nat, line: nat, col: nat) {
    var rs := Ranges(text);
    line < |rs| && rs[line].start + col == Clamp(text, cursor) && Clamp(text, cursor) <= rs[line].end
  }

  method CursorLineCol(text: string, cursor: nat) returns (line: nat, col: nat)
    ensures AtLineCol(text, cursor, line, col)
  {
    RangesCut(text);
    RangeFacts(text);
    line, col := 0, 0;
    var idx := 0;
    while idx < |text| && idx < cursor
      invariant idx <= Clamp(text, cursor) && AtLineCol(text, idx, line, col)
    {
      if text[idx] == '\n' {
        line := line + 1;
        col := 0;
      } else {
        col := col + 1;
      }
      idx := idx + 1;
    }
  }

  lemma RangeFacts(text: string)
    ensures var rs := Ranges(text);
      && rs != [] && rs[0].start == 0 && rs[|rs| - 1].end == |text|
      && (forall i :: 0 <= i < |rs| ==> IsLine(text, rs[i]))
      && (forall i :: 0 < i < |rs| ==> rs[i].start == rs[i - 1].end + 1)
  {
    RangesCut(text);
    CutMeans(text, 0, Ranges(text));
  }

  function LineLen(text: string, line: nat): nat {
    RangesCut(text);
    var rs := Ranges(text);
    if line < |rs| then rs[line].end - rs[line].start else 0
  }

  method LineLenAt(text: string, line: nat) returns (len: nat)
    ensures len == LineLen(text, line)
  {
    RangeFacts(text);
    ghost var rs := Ranges(text);
    var currentLine, col := 0, 0;
    for idx := 0 to |text|
      invariant currentLine <= line && AtLineCol(text, idx, currentLine, col)
    {
      if text[idx] == '\n' {
        if currentLine == line {
          return col;
        }
        currentLine := currentLine + 1;
        col := 0;
      } else {
        col := col + 1;
      }
    }
    LastLine(text, currentLine, col);
    len := if currentLine == line then col else 0;
  }

  function FromLineCol(text: string, line: nat, col: nat): nat {
    RangesCut(text);
    var rs := Ranges(text);
    if line < |rs| then rs[line].start + (if col <= LineLen(text, line) then col else LineLen(text, line)) else |text|
  }

  method CursorFromLineCol(text: string, targetLine: nat, targetCol: nat) returns (cursor: nat)
    ensures cursor == FromLineCol(text, targetLine, targetCol)
  {
    RangeFacts(text);
    var line, col := 0, 0;
    cursor := 0;
    while cursor < |text|
      invariant cursor <= |text| && line <= targetLine && AtLineCol(text, cursor, line, col)
      invariant line == targetLine ==> col <= targetCol
    {
      if line == targetLine && col >= targetCol {
        return;
      }
      if text[cursor] == '\n' {
        if line == targetLine {
          return;
        }
        line := line + 1;
        col := 0;
      } else {
        col := col + 1;
      }
      cursor := cursor + 1;
    }
    LastLine(text, line, col);
    if line != targetLine {
      cursor := |text|;
    }
  }

  lemma LastLine(text: string, line: nat, col: nat)
    requires AtLineCol(text, |text|, line, col)
    ensures line == |Ranges(text)| - 1 && col == LineLen(text, line)
  {
    RangeFacts(text);
    assert line < |Ranges(text)| - 1 ==> Ranges(text)[line].end < Ranges(text)[line + 1].start;
  }

  lemma {:induction false} StartsIncrease(text: string, i: nat, j: nat)
    requires i < j < |Ranges(text)|
    ensures Ranges(text)[i].end < Ranges(text)[j].start
    decreases j
  {
    RangeFacts(text);
    if i < j - 1 {
      StartsIncrease(text, i, j - 1);
    }
  }

  /** A cursor has one line and column, and they lead back to it (clamped to the text). */
  lemma CursorRoundTrip(text: string, cursor: nat, line: nat, col: nat)
    requires AtLineCol(text, cursor, line, col)
    ensures FromLineCol(text, line, col) == Clamp(text, cursor)
    ensures forall l: nat, c: nat :: AtLineCol(text, cursor, l, c) ==> l == line && c == col
  {
    RangeFacts(text);
    forall l: nat, c: nat | AtLineCol(text, cursor, l, c) ensures l == line && c == col {
      if l < line {
        StartsIncrease(text, l, line);
      } else if line < l {
        StartsIncrease(text, line, l);
      }
    }
  }

  /**
    A line and column lead to a cursor on that line whose column is clamped to the line's length; a line past the last
    leads to the end.
  */
  lemma LineColRoundTrip(text: string, line: nat, col: nat)
    ensures line < |Ranges(text)| ==>
        AtLineCol(
          text, FromLineCol(text, line, col), line, if col <= LineLen(text, line) then col else LineLen(text, line))
    ensures line >= |Ranges(text)| ==> FromLineCol(text, line, col) == |text|
  {
    RangeFacts(text);
  }

  /** `idx` is the last row starting at or before `cursor`, or the first row when there is none. */
  ghost predicate IsDisplayIndex(rows: seq<DisplayLine>, cursor: nat, idx: nat) {
    && idx < |rows| && (rows[idx].start <= cursor || idx == 0)
    && forall j :: idx < j < |rows| ==> cursor < rows[j].start
  }

  method DisplayLineIndex(text: string, cursor: nat, width: nat) returns (idx: nat)
    ensures IsDisplayIndex(Wrapped(text, width), cursor, idx)
  {
    var wrapped := WrappedDisplayLines(text, width);
    AlwaysARow(text, width);
    hide Wrapped;
    idx := |wrapped|;
    while idx > 0
      invariant idx <= |wrapped| && forall j :: idx <= j < |wrapped| ==> cursor < wrapped[j].start
    {
      idx := idx - 1;
      if wrapped[idx].start <= cursor {
        return;
      }
    }
  }

  lemma AlwaysARow(text: string, width: nat)
    ensures Wrapped(text, width) != []
  {
    if width > 0 {
      WrappedIsNotEmpty(text, width);
    }
  }

  /** The display row is unique, grows with the cursor, and the start of a row leads back to that row. */
  lemma DisplayIndexFollowsCursor(text: string, width: nat, c: nat, i: nat, c': nat, i': nat)
    requires IsDisplayIndex(Wrapped(text, width), c, i) && IsDisplayIndex(Wrapped(text, width), c', i')
    ensures c <= c' ==> i <= i'
    ensures forall k :: 0 <= k < |Wrapped(text, width)| && c == Wrapped(text, width)[k].start ==> i == k
  {
    if width > 0 {
      WrappedRowsFit(text, width);
    }
  }
}
