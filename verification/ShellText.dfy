/**
  The tokenizer of src/agents/launcher.rs on text as people write it: double quotes, and quoted and plain parts joined.
*/
module ShellText {
  import opened Common
  import opened ShellQuote

  // ---------------------------------------------------------------- parts of a word

  /**
    A piece of a word: plain, in single quotes, one character behind a backslash in single quotes, in double quotes.
  */
  datatype Part = Plain(text: string) | InSingle(text: string) | Escaped(c: char) | InDouble(text: string)

  predicate WellWritten(p: Part) {
    match p
    case Plain(text) => forall i :: 0 <= i < |text| ==> text[i] != '\'' && text[i] != '"' && !IsWhitespace(text[i])
    case InSingle(text) => forall i :: 0 <= i < |text| ==> text[i] != '\'' && text[i] != '\\'
    case Escaped(_) => true
    case InDouble(text) => '"' !in text
  }

  function Written(p: Part): string {
    match p
    case Plain(text) => text
    case InSingle(text) => "'" + (text + "'")
    case Escaped(c) => "'\\" + ([c] + "'")
    case InDouble(text) => "\"" + (text + "\"")
  }

  /** What the part stands for. */
  function Meaning(p: Part): string {
    match p
    case Plain(text) => text
    case InSingle(text) => text
    case Escaped(c) => [c]
    case InDouble(text) => text
  }

  function WrittenAll(parts: seq<Part>): string {
    if parts == [] then "" else Written(parts[0]) + WrittenAll(parts[1..])
  }

  function MeaningAll(parts: seq<Part>): string {
    if parts == [] then "" else Meaning(parts[0]) + MeaningAll(parts[1..])
  }

  lemma PlainChar(c: char, rest: string, current: string)
    requires c != '\'' && c != '"' && !IsWhitespace(c)
    ensures RawTokens([c] + rest, None, current) == RawTokens(rest, None, current + [c])
  {
    assert ([c] + rest)[1..] == rest;
  }

  lemma DoubleChar(c: char, rest: string, current: string)
    requires c != '"'
    ensures RawTokens([c] + rest, Some('"'), current) == RawTokens(rest, Some('"'), current + [c])
  {
    assert ([c] + rest)[1..] == rest;
  }

  lemma DoubleOpening(rest: string, current: string)
    ensures RawTokens("\"" + rest, None, current) == RawTokens(rest, Some('"'), current)
    ensures RawTokens("\"" + rest, Some('"'), current) == RawTokens(rest, None, current)
  {
    assert ("\"" + rest)[1..] == rest;
  }

  lemma {:induction false} PlainText(text: string, rest: string, current: string)
    requires WellWritten(Part.Plain(text))
    ensures RawTokens(text + rest, None, current) == RawTokens(rest, None, current + text)
  {
    hide RawTokens;
    if text == "" {
      assert text + rest == rest && current + text == current;
    } else {
      assert text == [text[0]] + text[1..];
      Associates([text[0]], text[1..], rest);
      Associates(current, [text[0]], text[1..]);
      PlainChar(text[0], text[1..] + rest, current);
      PlainText(text[1..], rest, current + [text[0]]);
    }
  }

  lemma {:induction false} DoubleText(text: string, rest: string, current: string)
    requires '"' !in text
    ensures RawTokens(text + rest, Some('"'), current) == RawTokens(rest, Some('"'), current + text)
  {
    hide RawTokens;
    if text == "" {
      assert text + rest == rest && current + text == current;
    } else {
      assert text == [text[0]] + text[1..];
      Associates([text[0]], text[1..], rest);
      Associates(current, [text[0]], text[1..]);
      DoubleChar(text[0], text[1..] + rest, current);
      DoubleText(text[1..], rest, current + [text[0]]);
    }
  }

  lemma OnePart(p: Part, rest: string, current: string)
    requires WellWritten(p)
    ensures RawTokens(Written(p) + rest, None, current) == RawTokens(rest, None, current + Meaning(p))
  {
    hide RawTokens;
    match p
    case Plain(text) =>
      PlainText(text, rest, current);
    case InSingle(text) =>
      assert Written(p) + rest == "'" + (text + ("'" + rest));
      RawOpening(text + ("'" + rest), current);
      CleanInQuotes(text, "'" + rest, current);
      RawClosing(rest, current + text);
    case Escaped(c) =>
      assert Written(p) + rest == "'" + ("\\" + ([c] + ("'" + rest)));
      RawOpening("\\" + ([c] + ("'" + rest)), current);
      EscapedInQuotes(c, "'" + rest, current);
      RawClosing(rest, current + [c]);
    case InDouble(text) =>
      assert Written(p) + rest == "\"" + (text + ("\"" + rest));
      DoubleOpening(text + ("\"" + rest), current);
      DoubleText(text, "\"" + rest, current);
      DoubleOpening(rest, current + text);
  }

  /** Parts written one after the other read as one: plain, single- and double-quoted, in any mixture. */
  lemma {:induction false} PartsJoin(parts: seq<Part>, rest: string, current: string)
    requires forall p :: p in parts ==> WellWritten(p)
    ensures RawTokens(WrittenAll(parts) + rest, None, current) == RawTokens(rest, None, current + MeaningAll(parts))
  {
    hide RawTokens, Written, Meaning, WellWritten;
    if parts == [] {
      assert WrittenAll(parts) + rest == rest && current + MeaningAll(parts) == current;
    } else {
      Associates(Written(parts[0]), WrittenAll(parts[1..]), rest);
      Associates(current, Meaning(parts[0]), MeaningAll(parts[1..]));
      OnePart(parts[0], WrittenAll(parts[1..]) + rest, current);
      PartsJoin(parts[1..], rest, current + Meaning(parts[0]));
    }
  }

  // ---------------------------------------------------------------- lines of words

  /** A word of parts and the whitespace behind it. */
  datatype Word = Word(parts: seq<Part>, gap: string)

  predicate AllWhitespace(s: string) {
    forall i :: 0 <= i < |s| ==> IsWhitespace(s[i])
  }

  ghost predicate WellFormed(words: seq<Word>) {
    forall i :: 0 <= i < |words| ==>
      && (forall p :: p in words[i].parts ==> WellWritten(p))
      && AllWhitespace(words[i].gap) && (i < |words| - 1 ==> words[i].gap != "")
  }

  function Line(words: seq<Word>): string {
    if words == [] then "" else WrittenAll(words[0].parts) + (words[0].gap + Line(words[1..]))
  }

  /** The words that stand for something, in order. */
  function Meanings(words: seq<Word>): seq<string> {
    if words == [] then []
    else
      var first := MeaningAll(words[0].parts);
      (if first == "" then [] else [first]) + Meanings(words[1..])
  }

  lemma {:induction false} GapSeparates(gap: string, rest: string, current: string)
    requires AllWhitespace(gap) && (gap != "" || rest == "")
    ensures RawTokens(gap + rest, None, current) == (if current == "" then [] else [current])
        + RawTokens(rest, None, "")
    decreases |gap|
  {
    if gap == "" {
      assert gap + rest == rest == "";
    } else {
      assert (gap + rest)[1..] == gap[1..] + rest;
      if gap[1..] == "" {
        assert gap[1..] + rest == rest;
      } else {
        GapSeparates(gap[1..], rest, "");
        assert [] + RawTokens(rest, None, "") == RawTokens(rest, None, "");
      }
    }
  }

  /**
    A line of words, each of parts quoted in any way, with any whitespace between and behind them, is tokenized into
    what the words stand for, each unquoted once more; words that stand for nothing are dropped.
  */
  lemma {:induction false} LineIsTokenized(words: seq<Word>)
    requires WellFormed(words)
    ensures RawTokens(Line(words), None, "") == Meanings(words)
    ensures Tokens(Line(words)) == Unquoted(Meanings(words))
  {
    hide RawTokens, WrittenAll, MeaningAll, WellWritten, AllWhitespace;
    if words == [] {
      EmptyLine();
    } else {
      var w, rest := words[0], Line(words[1..]);
      assert forall i :: 0 <= i < |words[1..]| ==> words[1..][i] == words[i + 1];
      LineIsTokenized(words[1..]);
      PartsJoin(w.parts, w.gap + rest, "");
      assert "" + MeaningAll(w.parts) == MeaningAll(w.parts);
      GapSeparates(w.gap, rest, MeaningAll(w.parts));
    }
  }

  lemma EmptyLine()
    ensures RawTokens("", None, "") == []
  {
  }

  /** A quote left open runs to the end of the line. */
  lemma OpenQuoteRunsOn(text: string, current: string)
    requires '"' !in text && current + text != ""
    ensures RawTokens("\"" + text, None, current) == [current + text]
  {
    DoubleOpening(text, current);
    DoubleText(text, "", current);
    assert text + "" == text;
  }

  // ---------------------------------------------------------------- double-quoted values

  function DoubleQuoted(v: string): Word {
    Word([InDouble(v)], " ")
  }

  function DoubleQuotedLine(vs: seq<string>): seq<Word> {
    seq(|vs|, i requires 0 <= i < |vs| => DoubleQuoted(vs[i]))
  }

  lemma {:induction false} DoubleQuotedMeanings(vs: seq<string>)
    requires "" !in vs
    ensures Meanings(DoubleQuotedLine(vs)) == vs
  {
    if vs != [] {
      assert vs == [vs[0]] + vs[1..] && vs[0] in vs;
      var words := DoubleQuotedLine(vs);
      assert words[1..] == DoubleQuotedLine(vs[1..]);
      OneMeaning(InDouble(vs[0]));
      DoubleQuotedMeanings(vs[1..]);
      hide Meanings, MeaningAll;
      MeaningsStep(words);
    }
  }

  lemma {:induction false} DroppedMeaningsAreFewer(words: seq<Word>, vs: seq<string>)
    requires |words| == |vs| && forall i :: 0 <= i < |vs| ==> MeaningAll(words[i].parts) == vs[i]
    ensures |Meanings(words)| <= |vs| && (|Meanings(words)| == |vs| ==> "" !in vs && Meanings(words) == vs)
  {
    hide Meanings, MeaningAll;
    MeaningsStep(words);
    if vs != [] {
      var rest, tail := Meanings(words[1..]), vs[1..];
      assert vs == [vs[0]] + tail && MeaningAll(words[0].parts) == vs[0];
      forall i | 0 <= i < |tail| ensures MeaningAll(words[1..][i].parts) == tail[i] {
        assert words[1..][i] == words[i + 1];
      }
      DroppedMeaningsAreFewer(words[1..], tail);
    }
  }

  lemma OneMeaning(p: Part)
    ensures MeaningAll([p]) == Meaning(p) && WrittenAll([p]) == Written(p)
  {
    assert [p][1..] == [] && Meaning(p) + "" == Meaning(p) && Written(p) + "" == Written(p);
  }

  lemma MeaningsStep(words: seq<Word>)
    ensures Meanings([]) == []
    ensures words != [] ==>
        var first := MeaningAll(words[0].parts);
        Meanings(words) == (if first == "" then [] else [first]) + Meanings(words[1..])
  {
  }

  /**
    Values in double quotes, free of double quotes themselves, are read back exactly when none is empty or wrapped in
    single quotes: backslashes, single quotes and whitespace included.
  */
  lemma DoubleQuotesReadBackExactly(vs: seq<string>)
    requires forall v :: v in vs ==> '"' !in v
    ensures Tokens(Line(DoubleQuotedLine(vs))) == vs <==> forall v :: v in vs ==> v != "" && !Wrapped(v, '\'')
  {
    hide RawTokens, Line;
    var words := DoubleQuotedLine(vs);
    forall i | 0 <= i < |vs| ensures MeaningAll(words[i].parts) == vs[i] && '"' !in vs[i] {
      assert vs[i] in vs && words[i].parts[1..] == [];
      assert vs[i] + "" == vs[i];
    }
    LineIsTokenized(words);
    DroppedMeaningsAreFewer(words, vs);
    UnquotedIsSmaller(Meanings(words));
    if forall v :: v in vs ==> v != "" && !Wrapped(v, '\'') {
      DoubleQuotedMeanings(vs);
      forall i | 0 <= i < |vs| ensures UnquoteToken(vs[i]) == vs[i] {
        assert vs[i] in vs;
        NoDoubleIsUnwrapped(vs[i]);
      }
    }
    if Tokens(Line(words)) == vs {
      assert |Unquoted(Meanings(words))| == |vs|;
      assert Meanings(words) == vs;
    }
  }

  lemma NoDoubleIsUnwrapped(v: string)
    requires '"' !in v
    ensures !Wrapped(v, '"')
  {
  }

  /** A flag and its value in double quotes. */
  lemma FlagKeepsItsValue()
    ensures Tokens("-r \"abc\"") == ["-r", "abc"]
  {
    hide RawTokens, Written, Line;
    var words := [Word([Part.Plain("-r")], " "), Word([InDouble("abc")], "")];
    FlagLine();
    LineIsTokenized(words);
    FlagMeanings(words);
    assert UnquoteToken("-r") == "-r" && UnquoteToken("abc") == "abc";
  }

  lemma FlagMeanings(words: seq<Word>)
    requires words == [Word([Part.Plain("-r")], " "), Word([InDouble("abc")], "")]
    ensures Meanings(words) == ["-r", "abc"]
  {
    hide Meanings, MeaningAll;
    assert words[1..] == [words[1]] && words[1..][1..] == [];
    OneMeaning(Part.Plain("-r"));
    OneMeaning(InDouble("abc"));
    MeaningsStep(words);
    MeaningsStep(words[1..]);
    assert Meanings(words[1..]) == ["abc"] + [];
    assert Meanings(words) == ["-r"] + ["abc"];
  }

  lemma FlagLine()
    ensures Line([Word([Part.Plain("-r")], " "), Word([InDouble("abc")], "")]) == "-r \"abc\""
  {
    var a, b := Word([Part.Plain("-r")], " "), Word([InDouble("abc")], "");
    assert [a, b][1..] == [b] && [b][1..] == [];
    OneMeaning(Part.Plain("-r"));
    OneMeaning(InDouble("abc"));
    hide WrittenAll;
    assert Line([b]) == "\"abc\"" + ("" + "");
  }
}
