/** What the display rows of the notepad (src/bar/notepad.rs) show, line by line: blank lines, words and spaces. */
module NotepadRows {
  import opened Common
  import opened Notepad

  // ---------------------------------------------------------------- blank lines

  /** A logical line without visible characters. */
  ghost predicate Blank(text: string, r: Range) {
    InText(text, r) && forall p :: r.start <= p < r.end ==> IsWhitespace(text[p])
  }

  /** Every empty row starts where a blank line does. */
  ghost predicate EmptyRowsAreBlankLines(text: string, rs: seq<Range>, rows: seq<DisplayLine>) {
    forall i :: 0 <= i < |rows| && rows[i].text == "" ==> BlankStart(text, rs, rows[i].start)
  }

  ghost predicate BlankStart(text: string, rs: seq<Range>, start: nat) {
    exists k :: 0 <= k < |rs| && Blank(text, rs[k]) && rs[k].start == start
  }

  /** Every blank line has one row, empty, at its start. */
  ghost predicate BlankLinesHaveOneRow(text: string, rs: seq<Range>, rows: seq<DisplayLine>) {
    forall k :: 0 <= k < |rs| && Blank(text, rs[k]) ==> exists i :: OnlyRow(rs[k], rows, i)
  }

  ghost predicate OnlyRow(r: Range, rows: seq<DisplayLine>, i: nat) {
    && i < |rows| && rows[i] == DisplayLine(r.start, "")
    && forall j :: 0 <= j < |rows| && r.start <= rows[j].start <= r.end ==> j == i
  }

  lemma {:induction false} NoWordsExactly(lo: nat, line: string, i: nat)
    requires i <= |line|
    ensures WordsFrom(lo, line, i) == [] <==> forall p :: i <= p < |line| ==> IsWhitespace(line[p])
    decreases |line| - i
  {
    if i < |line| {
      WordsFromStep(lo, line, i);
      if IsWhitespace(line[i]) {
        NoWordsExactly(lo, line, i + 1);
      }
    } else {
      NoWordsLeft(lo, line);
    }
  }

  lemma {:induction false} HardBreakIsFull(start: nat, word: string, width: nat)
    requires width > 0
    ensures forall i :: 0 <= i < |HardBreak(start, word, width)| ==> HardBreak(start, word, width)[i].text != ""
    decreases |word|
  {
    if |word| > width {
      HardBreakIsFull(start + width, word[width..], width);
    }
  }

  ghost predicate NoEmptyRow(rows: seq<DisplayLine>) {
    forall i :: 0 <= i < |rows| ==> rows[i].text != ""
  }

  lemma NoEmptyRowConcat(a: seq<DisplayLine>, b: seq<DisplayLine>)
    requires NoEmptyRow(a) && NoEmptyRow(b)
    ensures NoEmptyRow(a + b)
  {
  }

  lemma {:induction false} WrapWordsIsFull(segs: seq<Segment>, current: DisplayLine, width: nat)
    requires width > 0 && NonEmptyWords(segs)
    ensures NoEmptyRow(WrapWords(segs, current, width))
    decreases |segs|
  {
    hide WrapWords, HardBreak, NonEmptyWords;
    WrapWordsStep(segs, current, width);
    assert NoEmptyRow(Flush(current));
    if segs != [] {
      var s, rest := segs[0], segs[1..];
      FirstNonEmpty(segs);
      HardBreakIsFull(s.start, s.word, width);
      WrapWordsIsFull(rest, current.(text := ""), width);
      WrapWordsIsFull(rest, DisplayLine(s.start, s.word), width);
      WrapWordsIsFull(rest, current.(text := current.text + " " + s.word), width);
      NoEmptyRowConcat(Flush(current), HardBreak(s.start, s.word, width));
      NoEmptyRowConcat(Flush(current) + HardBreak(s.start, s.word, width),
          WrapWords(rest, current.(text := ""), width));
      NoEmptyRowConcat(Flush(current), WrapWords(rest, DisplayLine(s.start, s.word), width));
    }
  }

  /** A blank line takes one empty row at its start; the rows of any other line are not empty. */
  lemma LineRows(text: string, r: Range, width: nat)
    requires width > 0 && InText(text, r)
    ensures var rows := WrapLine(r.start, LineText(text, r), width);
      if Blank(text, r) then rows == [DisplayLine(r.start, "")] else NoEmptyRow(rows)
  {
    var line := LineText(text, r);
    assert forall p :: 0 <= p < |line| ==> line[p] == text[r.start + p];
    NoWordsExactly(r.start, line, 0);
    if Blank(text, r) {
      assert forall p :: 0 <= p < |line| ==> IsWhitespace(line[p]);
    } else {
      var p :| r.start <= p < r.end && !IsWhitespace(text[p]);
      assert !IsWhitespace(line[p - r.start]);
      WordsFromAreWords(r.start, line, 0);
      WrapWordsIsFull(WordsFrom(r.start, line, 0), DisplayLine(r.start, ""), width);
    }
  }

  ghost predicate StartsIn(rows: seq<DisplayLine>, lo: nat, hi: nat) {
    forall i :: 0 <= i < |rows| ==> lo <= rows[i].start < hi
  }

  lemma MatchCons(text: string, r: Range, rest: seq<Range>, first: seq<DisplayLine>, others: seq<DisplayLine>)
    requires if Blank(text, r) then first == [DisplayLine(r.start, "")] else NoEmptyRow(first)
    requires r.start <= r.end && StartsIn(first, r.start, r.end + 1)
    requires forall i :: 0 <= i < |others| ==> others[i].start > r.end
    requires forall k :: 0 <= k < |rest| ==> rest[k].start > r.end
    requires EmptyRowsAreBlankLines(text, rest, others) && BlankLinesHaveOneRow(text, rest, others)
    ensures EmptyRowsAreBlankLines(text, [r] + rest, first + others)
    ensures BlankLinesHaveOneRow(text, [r] + rest, first + others)
  {
    hide Blank;
    var rs, rows := [r] + rest, first + others;
    forall i | 0 <= i < |rows| && rows[i].text == "" ensures BlankStart(text, rs, rows[i].start) {
      if i < |first| {
        assert rs[0] == r && Blank(text, r);
      } else {
        var k :| 0 <= k < |rest| && Blank(text, rest[k]) && rest[k].start == others[i - |first|].start;
        assert rs[k + 1] == rest[k];
      }
    }
    forall k | 0 <= k < |rs| && Blank(text, rs[k]) ensures exists i :: OnlyRow(rs[k], rows, i) {
      if k == 0 {
        assert OnlyRow(r, rows, 0);
      } else {
        var i: nat :| OnlyRow(rest[k - 1], others, i);
        forall j | 0 <= j < |rows| && rs[k].start <= rows[j].start <= rs[k].end ensures j == |first| + i {
          if j >= |first| {
            assert rows[j] == others[j - |first|];
          }
        }
        assert OnlyRow(rs[k], rows, |first| + i);
      }
    }
  }

  lemma {:induction false} RangesMatch(text: string, rs: seq<Range>, start: nat, width: nat)
    requires width > 0 && CutsAtNewlines(text, start, rs)
    requires forall i :: 0 <= i < |rs| ==> InText(text, rs[i])
    ensures EmptyRowsAreBlankLines(text, rs, WrapRanges(text, rs, width))
    ensures BlankLinesHaveOneRow(text, rs, WrapRanges(text, rs, width))
    ensures StartsIn(WrapRanges(text, rs, width), start, |text| + 1)
    ensures forall k :: 0 <= k < |rs| ==> rs[k].start >= start
    decreases |rs|
  {
    hide WrapLine, EmptyRowsAreBlankLines, BlankLinesHaveOneRow, Blank;
    var r, rest := rs[0], rs[1..];
    var first, others := WrapLine(r.start, LineText(text, r), width), WrapRanges(text, rest, width);
    assert rs == [r] + rest;
    LineRows(text, r, width);
    LineStarts(text, r, width);
    if rest != [] {
      RangesMatch(text, rest, r.end + 1, width);
    } else {
      NoRangesMatch(text);
    }
    MatchCons(text, r, rest, first, others);
  }

  lemma NoRangesMatch(text: string)
    ensures EmptyRowsAreBlankLines(text, [], []) && BlankLinesHaveOneRow(text, [], [])
  {
  }

  lemma LineStarts(text: string, r: Range, width: nat)
    requires width > 0 && InText(text, r)
    ensures StartsIn(WrapLine(r.start, LineText(text, r), width), r.start, r.end + 1)
  {
    var rows := WrapLine(r.start, LineText(text, r), width);
    assert At(text, r.start, LineText(text, r));
    WrapLineRows(text, r.start, LineText(text, r), width);
    RowsOfMeans(text, rows, r.start, r.end + 1, width);
  }

  /**
    Among the rows of the whole text, every empty one starts where a blank line starts, and every blank line has exactly
    one row, empty, at its start.
  */
  lemma BlankLinesAreEmptyRows(text: string, width: nat)
    requires width > 0
    ensures EmptyRowsAreBlankLines(text, Ranges(text), Wrapped(text, width))
    ensures BlankLinesHaveOneRow(text, Ranges(text), Wrapped(text, width))
  {
    RangesCut(text);
    RangesMatch(text, Ranges(text), 0, width);
  }

  /** So a cursor at the start of a blank line is on that line's own row. */
  lemma CursorOnBlankLine(text: string, width: nat, k: nat, i: nat)
    requires width > 0 && k < |Ranges(text)| && Blank(text, Ranges(text)[k])
    requires IsDisplayIndex(Wrapped(text, width), Ranges(text)[k].start, i)
    ensures Wrapped(text, width)[i] == DisplayLine(Ranges(text)[k].start, "")
  {
    hide Wrapped, Ranges, Blank;
    BlankLinesAreEmptyRows(text, width);
    var r, rows := Ranges(text)[k], Wrapped(text, width);
    var own: nat :| OnlyRow(r, rows, own);
    DisplayIndexFollowsCursor(text, width, r.start, i, r.start, i);
  }

  // ---------------------------------------------------------------- words and spaces

  /** Words depend on the characters from where reading starts, and on nothing else. */
  lemma {:induction false} WordsOfSuffix(lo: nat, line: string, i: nat, lo': nat, line': string, i': nat)
    requires i <= |line| && i' <= |line'| && line[i..] == line'[i'..]
    ensures WordTexts(WordsFrom(lo, line, i)) == WordTexts(WordsFrom(lo', line', i'))
    decreases |line| - i
  {
    assert |line| - i == |line[i..]| == |line'| - i';
    if i == |line| {
      NoWordsLeft(lo, line);
      NoWordsLeft(lo', line');
    } else {
      assert line[i] == line[i..][0] == line'[i'];
      WordsFromStep(lo, line, i);
      WordsFromStep(lo', line', i');
      if IsWhitespace(line[i]) {
        assert line[i + 1..] == line[i..][1..] && line'[i' + 1..] == line'[i'..][1..];
        WordsOfSuffix(lo, line, i + 1, lo', line', i' + 1);
      } else {
        var e, e' := WordEnd(line, i + 1), WordEnd(line', i' + 1);
        WordEndShifts(line, i + 1, line', i' + 1);
        assert line[i..e] == line[i..][..e - i] && line'[i'..e'] == line'[i'..][..e - i];
        assert line[e..] == line[i..][e - i..] && line'[e'..] == line'[i'..][e - i..];
        WordsOfSuffix(lo, line, e, lo', line', e');
        hide WordsFrom, WordEnd;
        WordTextsCons(Segment(lo + i, line[i..e]), WordsFrom(lo, line, e));
        WordTextsCons(Segment(lo' + i', line'[i'..e']), WordsFrom(lo', line', e'));
      }
    }
  }

  lemma WordTextsCons(s: Segment, segs: seq<Segment>)
    ensures WordTexts([s] + segs) == [s.word] + WordTexts(segs)
  {
  }

  lemma {:induction false} WordEndShifts(line: string, i: nat, line': string, i': nat)
    requires 0 < i <= |line| && 0 < i' <= |line'| && line[i - 1..] == line'[i' - 1..]
    ensures WordEnd(line, i) - i == WordEnd(line', i') - i'
    decreases |line| - i
  {
    assert |line| - i == |line[i - 1..]| - 1 == |line'| - i';
    if i < |line| {
      assert line[i] == line[i - 1..][1] == line'[i'];
      if !IsWhitespace(line[i]) {
        assert line[i..] == line[i - 1..][1..] && line'[i'..] == line'[i' - 1..][1..];
        WordEndShifts(line, i + 1, line', i' + 1);
      }
    }
  }

  /** The words of a text that begins with a word and a space. */
  lemma WordThenRest(word: string, rest: string)
    requires word != "" && NoWhitespace(word)
    ensures WordTexts(WordsFrom(0, word + " " + rest, 0)) == [word] + WordTexts(WordsFrom(0, rest, 0))
    ensures WordTexts(WordsFrom(0, word, 0)) == [word]
  {
    var line, n := word + " " + rest, |word|;
    assert forall p :: 0 <= p < n ==> line[p] == word[p];
    WordEndAt(line, 1, n);
    WordEndAt(word, 1, n);
    WordsFromStep(0, line, 0);
    WordsFromStep(0, line, n);
    WordsFromStep(0, word, 0);
    NoWordsLeft(0, word);
    assert line[0..n] == word && word[0..n] == word;
    assert line[n + 1..] == rest[0..];
    WordsOfSuffix(0, line, n + 1, 0, rest, 0);
    hide WordsFrom, WordEnd;
    WordTextsCons(Segment(0, word), WordsFrom(0, line, n + 1));
    WordTextsCons(Segment(0, word), []);
    assert [Segment(0, word)] + [] == [Segment(0, word)];
  }

  lemma {:induction false} WordEndAt(line: string, i: nat, n: nat)
    requires i <= n <= |line| && (forall p :: i <= p < n ==> !IsWhitespace(line[p]))
    requires n < |line| ==> IsWhitespace(line[n])
    ensures WordEnd(line, i) == n
    decreases n - i
  {
    if i < n {
      WordEndAt(line, i + 1, n);
    }
  }

  ghost predicate ProperWords(segs: seq<Segment>) {
    forall i :: 0 <= i < |segs| ==> segs[i].word != "" && NoWhitespace(segs[i].word)
  }

  /** Only plain spaces, one between neighbouring words, none at the ends. */
  ghost predicate Tidy(t: string) {
    && (forall i :: 0 <= i < |t| && IsWhitespace(t[i]) ==> t[i] == ' ')
    && (t != "" ==> |t| == |NonBlank(t)| + |WordsFrom(0, t, 0)| - 1)
  }

  lemma {:induction false} JoinedWords(words: seq<Segment>)
    requires ProperWords(words)
    ensures WordTexts(WordsFrom(0, Join(words), 0)) == WordTexts(words)
    ensures Tidy(Join(words))
  {
    hide WordsFrom, NonBlank;
    if words == [] {
      NoWordsLeft(0, "");
    } else {
      var w, rest := words[0].word, words[1..];
      WordTextsCons(words[0], rest);
      assert words == [words[0]] + rest;
      NonBlankOfWord(w);
      if rest == [] {
        WordThenRest(w, "");
        assert WordTexts([]) == [];
      } else {
        JoinedWords(rest);
        JoinIsSomething(rest);
        WordThenRest(w, Join(rest));
        SpaceBetween(w, Join(rest));
      }
    }
  }

  lemma JoinIsSomething(words: seq<Segment>)
    requires words != [] && words[0].word != ""
    ensures Join(words) != ""
  {
  }

  lemma SpaceBetween(w: string, rest: string)
    requires NoWhitespace(w)
    ensures |NonBlank(w + " " + rest)| == |w| + |NonBlank(rest)|
  {
    assert w + " " + rest == w + (" " + rest);
    NonBlankConcat(w, " " + rest);
    NonBlankConcat(" ", rest);
    NonBlankOfWord(w);
  }

  ghost predicate AllTidy(rows: seq<string>) {
    forall i :: 0 <= i < |rows| ==> Tidy(rows[i])
  }

  ghost predicate AllFit(segs: seq<Segment>, width: nat) {
    forall i :: 0 <= i < |segs| ==> |segs[i].word| <= width
  }

  ghost predicate ShowWords(rows: seq<string>, segs: seq<Segment>, width: nat) {
    AllTidy(rows) && (AllFit(segs, width) ==> AllWords(rows) == WordTexts(segs))
  }

  lemma {:induction false} RenderedRows(layout: seq<Row>, segs: seq<Segment>, width: nat)
    requires IsLayout(layout, segs, width) && ProperWords(segs)
    ensures ShowWords(Render(layout), segs, width)
    decreases |layout|
  {
    hide WordsFrom, Tidy, AllWords, Render, Content, IsLayout, ProperWords, Join, Concat, ShowWords;
    LayoutStep(layout, segs, width);
    if layout == [] {
      NothingShown(width);
    } else {
      var first := match layout[0] case Fit(words) => words case Broken(word, _) => [word];
      var rest := Content(layout[1..]);
      PartsAreProper(first, rest);
      RenderedRows(layout[1..], rest, width);
      match layout[0]
      case Fit(words) =>
        RenderFit(layout);
        FitShows(words, rest, Render(layout[1..]), width);
      case Broken(word, pieces) =>
        RenderBroken(layout);
        BrokenShows(word, pieces, rest, Render(layout[1..]), width);
    }
  }

  lemma NothingShown(width: nat)
    ensures ShowWords([], [], width)
  {
  }

  lemma FitShows(words: seq<Segment>, rest: seq<Segment>, rows: seq<string>, width: nat)
    requires ProperWords(words) && ShowWords(rows, rest, width)
    ensures ShowWords([Join(words)] + rows, words + rest, width)
  {
    hide WordsFrom, Tidy, AllWords, Join, ProperWords;
    JoinedWords(words);
    AllWordsFirst(Join(words), rows);
    WordTextsConcat(words, rest);
    if AllFit(words + rest, width) {
      assert forall i :: 0 <= i < |rest| ==> rest[i] == (words + rest)[|words| + i];
    }
  }

  lemma BrokenShows(word: Segment, pieces: seq<string>, rest: seq<Segment>, rows: seq<string>, width: nat)
    requires |word.word| > width && Concat(pieces) == word.word && NoWhitespace(word.word)
    requires ShowWords(rows, rest, width)
    ensures ShowWords(pieces + rows, [word] + rest, width)
  {
    hide WordsFrom, Tidy, AllWords, Concat;
    PiecesAreTidy(pieces);
    assert ([word] + rest)[0] == word;
  }

  lemma LayoutStep(layout: seq<Row>, segs: seq<Segment>, width: nat)
    requires IsLayout(layout, segs, width)
    ensures layout == [] ==> segs == [] && Render(layout) == [] && AllWords([]) == WordTexts([]) == []
    ensures layout != [] ==>
        var first := match layout[0] case Fit(words) => words case Broken(word, _) => [word];
        && segs == first + Content(layout[1..]) && IsLayout(layout[1..], Content(layout[1..]), width)
        && (layout[0].Broken? ==> |layout[0].word.word| > width && Concat(layout[0].pieces) == layout[0].word.word)
  {
  }

  lemma PartsAreProper(first: seq<Segment>, rest: seq<Segment>)
    requires ProperWords(first + rest)
    ensures ProperWords(first) && ProperWords(rest)
    ensures first != [] ==> NoWhitespace(first[0].word)
    ensures forall i :: 0 <= i < |rest| ==> rest[i] == (first + rest)[|first| + i]
  {
    assert forall i :: 0 <= i < |first| ==> first[i] == (first + rest)[i];
    assert forall i :: 0 <= i < |rest| ==> rest[i] == (first + rest)[|first| + i];
  }

  lemma RenderFit(layout: seq<Row>)
    requires layout != [] && layout[0].Fit?
    ensures Render(layout) == [Join(layout[0].words)] + Render(layout[1..])
  {
  }

  lemma RenderBroken(layout: seq<Row>)
    requires layout != [] && layout[0].Broken?
    ensures Render(layout) == layout[0].pieces + Render(layout[1..])
  {
  }

  lemma AllWordsFirst(row: string, rows: seq<string>)
    ensures AllWords([row] + rows) == WordTexts(WordsFrom(0, row, 0)) + AllWords(rows)
  {
    hide WordsFrom;
    assert ([row] + rows)[1..] == rows;
  }

  lemma WordTextsConcat(a: seq<Segment>, b: seq<Segment>)
    ensures WordTexts(a + b) == WordTexts(a) + WordTexts(b)
  {
  }

  lemma {:induction false} PiecesAreTidy(pieces: seq<string>)
    requires NoWhitespace(Concat(pieces))
    ensures forall i :: 0 <= i < |pieces| ==> Tidy(pieces[i])
  {
    if pieces != [] {
      var p, rest := pieces[0], Concat(pieces[1..]);
      assert Concat(pieces) == p + rest;
      assert forall i :: 0 <= i < |p| ==> p[i] == (p + rest)[i];
      assert forall i :: 0 <= i < |rest| ==> rest[i] == (p + rest)[|p| + i];
      PiecesAreTidy(pieces[1..]);
      PieceIsTidy(p);
      hide Tidy;
      assert forall i :: 0 < i < |pieces| ==> pieces[i] == pieces[1..][i - 1];
    }
  }

  lemma PieceIsTidy(p: string)
    requires NoWhitespace(p)
    ensures Tidy(p)
  {
    NonBlankOfWord(p);
    if p != "" {
      WordThenRest(p, "");
      assert |WordTexts(WordsFrom(0, p, 0))| == 1;
    }
  }

  /** The rows of a line are tidy and, when no word is over-long, show exactly its words, in order. */
  lemma RowsShowTheWords(lineStart: nat, line: string, width: nat)
    requires width > 0
    ensures ShowWords(Texts(WrapLine(lineStart, line, width)), WordsFrom(lineStart, line, 0), width)
  {
    hide IsLayout, Render, Tidy, WrapLine, WordsFrom, ShowWords;
    var words := WordsFrom(lineStart, line, 0);
    WrapIsShortest(lineStart, line, width);
    WordsFromAreWords(lineStart, line, 0);
    if words == [] {
      BlankRowIsTidy(width);
    } else {
      var layout :| IsLayout(layout, words, width) && Texts(WrapLine(lineStart, line, width)) == Render(layout);
      RenderedRows(layout, words, width);
    }
  }

  lemma BlankRowIsTidy(width: nat)
    ensures ShowWords([""], [], width)
  {
    NoWordsLeft(0, "");
  }

  lemma {:induction false} RangesAreTidy(text: string, rs: seq<Range>, width: nat)
    requires width > 0 && forall i :: 0 <= i < |rs| ==> InText(text, rs[i])
    ensures forall i :: 0 <= i < |WrapRanges(text, rs, width)| ==> Tidy(WrapRanges(text, rs, width)[i].text)
    decreases |rs|
  {
    hide Tidy, WrapLine;
    if rs != [] {
      var first := WrapLine(rs[0].start, LineText(text, rs[0]), width);
      RowsShowTheWords(rs[0].start, LineText(text, rs[0]), width);
      assert forall i :: 0 <= i < |first| ==> first[i].text == Texts(first)[i];
      RangesAreTidy(text, rs[1..], width);
    }
  }

  /** Every row of the text is tidy. */
  lemma RowsAreTidy(text: string, width: nat)
    requires width > 0
    ensures forall i :: 0 <= i < |Wrapped(text, width)| ==> Tidy(Wrapped(text, width)[i].text)
  {
    hide Tidy;
    RangesCut(text);
    RangesAreTidy(text, Ranges(text), width);
  }
}
