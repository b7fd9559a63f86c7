/**
  Quoting values for the shell (src/session/managed.rs) and reading command lines back, by the shell's own rules
  and by the repository's tokenizer (src/agents/launcher.rs).
*/
module ShellQuote {
  import opened Common

  const QUOTE := '\''
  const DQUOTE := '"'
  const BACKSLASH := '\\'

  // ---------------------------------------------------------------- quoting

  predicate Safe(c: char) {
    'a' <= c <= 'z' || 'A' <= c <= 'Z' || '0' <= c <= '9' || c == '-' || c == '_' || c == '.' || c == '/'
  }

  predicate AllSafe(s: string) {
    forall i :: 0 <= i < |s| ==> Safe(s[i])
  }

  function EscapedChar(c: char): string {
    if c == QUOTE then "'\\''" else [c]
  }

  /** Every quote replaced by: close, escaped quote, reopen. */
  function Escape(v: string): string {
    if v == "" then "" else EscapedChar(v[0]) + Escape(v[1..])
  }

  function ShellQuote(v: string): string {
    if v == "" then "''" else if AllSafe(v) then v else "'" + (Escape(v) + "'")
  }

  /** The quoted values, separated by spaces. */
  function CommandLine(vs: seq<string>): string {
    if vs == [] then "" else if |vs| == 1 then ShellQuote(vs[0]) else ShellQuote(vs[0]) + (" " + CommandLine(vs[1..]))
  }

  // ---------------------------------------------------------------- the shell's reading

  datatype Mode = Plain | Single | Double

  /** What ends a simple word list or asks for an expansion when unquoted. */
  predicate Special(c: char) {
    c in "|&;<>()$`*?[#~=%\n"
  }

  function Push(word: Option<string>, c: char): Option<string> {
    Some(word.Or(Some("")).value + [c])
  }

  /**
    The words of a line, by section 2.2 of the Shell Command Language (POSIX.1): `word` is the one being read, if any.
    None when a quote is left open or an unquoted character would be more than text.
  */
  function Words(s: string, mode: Mode, word: Option<string>): Option<seq<string>>
    decreases |s|
  {
    if s == "" then
      if mode == Plain then Some(if word.Some? then [word.value] else []) else None
    else
      var c, rest := s[0], s[1..];
      match mode
      case Plain =>
        if c == ' ' || c == '\t' then
          var more := Words(rest, Plain, None);
          if more.Some? && word.Some? then Some([word.value] + more.value) else more
        else if c == QUOTE then Words(rest, Single, Some(word.Or(Some("")).value))
        else if c == DQUOTE then Words(rest, Double, Some(word.Or(Some("")).value))
        else if c == BACKSLASH then
          if rest == "" then None
          else if rest[0] == '\n' then Words(rest[1..], Plain, word)
          else Words(rest[1..], Plain, Push(word, rest[0]))
        else if Special(c) then None
        else Words(rest, Plain, Push(word, c))
      case Single =>
        if c == QUOTE then Words(rest, Plain, word) else Words(rest, Single, Push(word, c))
      case Double =>
        if c == DQUOTE then Words(rest, Plain, word)
        else if c == '$' || c == '`' then None
        else if c == BACKSLASH && rest != "" && rest[0] == '\n' then Words(rest[1..], Double, word)
        else if c == BACKSLASH && rest != "" && rest[0] in "$`\"\\" then Words(rest[1..], Double, Push(word, rest[0]))
        else Words(rest, Double, Push(word, c))
  }

  lemma SafeChar(c: char, rest: string, word: Option<string>)
    requires Safe(c)
    ensures Words([c] + rest, Plain, word) == Words(rest, Plain, Push(word, c))
  {
    assert ([c] + rest)[1..] == rest;
    assert !Special(c);
  }

  lemma QuotedChar(c: char, rest: string, word: Option<string>)
    requires c != QUOTE
    ensures Words([c] + rest, Single, word) == Words(rest, Single, Push(word, c))
  {
    assert ([c] + rest)[1..] == rest;
  }

  lemma Opening(rest: string, word: Option<string>)
    ensures Words("'" + rest, Plain, word) == Words(rest, Single, Some(word.Or(Some("")).value))
  {
    assert ("'" + rest)[1..] == rest;
  }

  lemma Closing(rest: string, word: Option<string>)
    ensures Words("'" + rest, Single, word) == Words(rest, Plain, word)
  {
    assert ("'" + rest)[1..] == rest;
  }

  lemma EscapedQuote(rest: string, word: Option<string>)
    ensures Words("\\'" + rest, Plain, word) == Words(rest, Plain, Push(word, QUOTE))
  {
    assert ("\\'" + rest)[1..] == "'" + rest;
    assert ("'" + rest)[1..] == rest;
  }

  lemma {:induction false} SafeIsRead(v: string, rest: string, word: Option<string>)
    requires AllSafe(v) && v != ""
    ensures Words(v + rest, Plain, word) == Words(rest, Plain, Some(word.Or(Some("")).value + v))
  {
    hide Words;
    var was := word.Or(Some("")).value;
    assert Safe(v[0]) && v == [v[0]] + v[1..];
    SafeChar(v[0], v[1..] + rest, word);
    assert v + rest == [v[0]] + (v[1..] + rest);
    assert was + v == (was + [v[0]]) + v[1..];
    if |v| == 1 {
      assert v[1..] + rest == rest && was + v == was + [v[0]];
    } else {
      SafeIsRead(v[1..], rest, Push(word, v[0]));
    }
  }

  lemma {:induction false} EscapedIsRead(v: string, rest: string, word: string)
    ensures Words(Escape(v) + ("'" + rest), Single, Some(word)) == Words(rest, Plain, Some(word + v))
  {
    hide Words, Escape;
    if v == "" {
      EscapeOfClean(v);
      Closing(rest, Some(word));
      assert Escape(v) + ("'" + rest) == "'" + rest && word + v == word;
    } else {
      var more := Escape(v[1..]) + ("'" + rest);
      EscapeFirst(v);
      Associates(EscapedChar(v[0]), Escape(v[1..]), "'" + rest);
      EscapedIsRead(v[1..], rest, word + [v[0]]);
      assert word + v == (word + [v[0]]) + v[1..];
      if v[0] == QUOTE {
        assert "'\\''" + more == "'" + ("\\'" + ("'" + more));
        Closing("\\'" + ("'" + more), Some(word));
        EscapedQuote("'" + more, Some(word));
        Opening(more, Some(word + "'"));
      } else {
        QuotedChar(v[0], more, Some(word));
      }
    }
  }

  lemma QuotedIsRead(v: string, rest: string)
    ensures Words(ShellQuote(v) + rest, Plain, None) == Words(rest, Plain, Some(v))
  {
    hide Words, Escape;
    if v == "" {
      assert ShellQuote(v) + rest == "'" + ("'" + rest);
      Opening("'" + rest, None);
      Closing(rest, Some(""));
    } else if AllSafe(v) {
      SafeIsRead(v, rest, None);
      assert "" + v == v;
    } else {
      assert ShellQuote(v) + rest == "'" + (Escape(v) + ("'" + rest));
      Opening(Escape(v) + ("'" + rest), None);
      EscapedIsRead(v, rest, "");
      assert "" + v == v;
    }
  }

  lemma EndOfLine(word: Option<string>)
    ensures Words("", Plain, word) == Some(if word.Some? then [word.value] else [])
  {
  }

  lemma Blank(rest: string, word: string)
    ensures Words(rest, Plain, None).Some? ==>
        Words(" " + rest, Plain, Some(word)) == Some([word] + Words(rest, Plain, None).value)
  {
    assert (" " + rest)[1..] == rest;
  }

  /** Splitting the command line by the shell's rules gives the values back, whatever they are. */
  lemma {:induction false} ShellReadsBack(vs: seq<string>)
    ensures Words(CommandLine(vs), Plain, None) == Some(vs)
  {
    hide Words, ShellQuote;
    if vs == [] {
      EndOfLine(None);
    } else if |vs| == 1 {
      QuotedIsRead(vs[0], "");
      EndOfLine(Some(vs[0]));
      assert ShellQuote(vs[0]) + "" == ShellQuote(vs[0]) && [vs[0]] == vs;
    } else {
      QuotedIsRead(vs[0], " " + CommandLine(vs[1..]));
      ShellReadsBack(vs[1..]);
      Blank(CommandLine(vs[1..]), vs[0]);
      assert [vs[0]] + vs[1..] == vs;
    }
  }

  // ---------------------------------------------------------------- the repository's tokenizer

  /** Rust's `replace`, of an escaped quote by a quote. */
  function ReplaceEscaped(s: string): (r: string)
    ensures |r| <= |s|
  {
    if |s| >= 2 && s[0] == BACKSLASH && s[1] == QUOTE then [QUOTE] + ReplaceEscaped(s[2..])
    else if s == "" then ""
    else [s[0]] + ReplaceEscaped(s[1..])
  }

  predicate Wrapped(t: string, q: char) {
    |t| >= 2 && t[0] == q && t[|t| - 1] == q
  }

  function UnquoteToken(t: string): string {
    if Wrapped(t, QUOTE) || Wrapped(t, DQUOTE) then ReplaceEscaped(t[1..|t| - 1]) else t
  }

  /** The tokens still to come, before unquoting, when `quote` is open and `current` is being built. */
  ghost function RawTokens(s: string, quote: Option<char>, current: string): seq<string>
    decreases |s|
  {
    if s == "" then if current == "" then [] else [current]
    else
      var c, rest := s[0], s[1..];
      match quote
      case Some(q) =>
        if c == q then RawTokens(rest, None, current)
        else if c == BACKSLASH && q == QUOTE then
          if rest == "" then RawTokens(rest, quote, current) else RawTokens(rest[1..], quote, current + [rest[0]])
        else RawTokens(rest, quote, current + [c])
      case None =>
        if IsWhitespace(c) then (if current == "" then [] else [current]) + RawTokens(rest, None, "")
        else if c == QUOTE || c == DQUOTE then RawTokens(rest, Some(c), current)
        else RawTokens(rest, None, current + [c])
  }

  ghost function Unquoted(raw: seq<string>): seq<string> {
    seq(|raw|, i requires 0 <= i < |raw| => UnquoteToken(raw[i]))
  }

  ghost function Tokens(command: string): seq<string> {
    Unquoted(RawTokens(command, None, ""))
  }

  method ShellTokens(command: string) returns (tokens: seq<string>)
    ensures tokens == Tokens(command)
  {
    tokens := [];
    var current := "";
    var i := 0;
    var quote: Option<char> := None;
    assert command[0..] == command;
    while i < |command|
      invariant i <= |command|
      invariant Tokens(command) == tokens + Unquoted(RawTokens(command[i..], quote, current))
    {
      var ch := command[i];
      assert command[i..][1..] == command[i + 1..];
      i := i + 1;
      match quote
      case Some(delimiter) =>
        if ch == delimiter {
          quote := None;
        } else if ch == BACKSLASH && delimiter == QUOTE {
          if i < |command| {
            assert command[i..][1..] == command[i + 1..];
            current := current + [command[i]];
            i := i + 1;
          }
        } else {
          current := current + [ch];
        }
      case None =>
        if IsWhitespace(ch) {
          if current != "" {
            UnquotedFirst(current, RawTokens(command[i..], None, ""));
            tokens := tokens + [UnquoteToken(current)];
            current := "";
          } else {
            assert [] + RawTokens(command[i..], None, "") == RawTokens(command[i..], None, "");
          }
        } else if ch == QUOTE || ch == DQUOTE {
          quote := Some(ch);
        } else {
          current := current + [ch];
        }
    }
    if current != "" {
      UnquotedFirst(current, []);
      tokens := tokens + [UnquoteToken(current)];
    }
  }

  lemma UnquotedFirst(t: string, raw: seq<string>)
    ensures Unquoted([t] + raw) == [UnquoteToken(t)] + Unquoted(raw)
    ensures Unquoted([]) == [] && Unquoted([t]) == [UnquoteToken(t)]
  {
  }

  /** The values the tokenizer can read back. */
  predicate Readable(v: string) {
    v != "" && QUOTE !in v && BACKSLASH !in v && !Wrapped(v, DQUOTE)
  }

  lemma {:induction false} CleanInQuotes(u: string, rest: string, current: string)
    requires QUOTE !in u && BACKSLASH !in u
    ensures RawTokens(u + rest, Some(QUOTE), current) == RawTokens(rest, Some(QUOTE), current + u)
  {
    if u == "" {
      assert u + rest == rest && current + u == current;
    } else {
      assert u == [u[0]] + u[1..];
      assert (u + rest)[1..] == u[1..] + rest;
      assert current + u == (current + [u[0]]) + u[1..];
      CleanInQuotes(u[1..], rest, current + [u[0]]);
    }
  }

  lemma {:induction false} SafeOutsideQuotes(u: string, rest: string, current: string)
    requires AllSafe(u)
    ensures RawTokens(u + rest, None, current) == RawTokens(rest, None, current + u)
  {
    if u == "" {
      assert u + rest == rest && current + u == current;
    } else {
      assert Safe(u[0]);
      assert (u + rest)[1..] == u[1..] + rest;
      assert current + u == (current + [u[0]]) + u[1..];
      SafeOutsideQuotes(u[1..], rest, current + [u[0]]);
    }
  }

  lemma {:induction false} EscapeOfClean(u: string)
    requires QUOTE !in u
    ensures Escape(u) == u
  {
    if u != "" {
      assert u == [u[0]] + u[1..];
      EscapeOfClean(u[1..]);
    }
  }

  lemma RawOpening(rest: string, current: string)
    ensures RawTokens("'" + rest, None, current) == RawTokens(rest, Some(QUOTE), current)
  {
    assert ("'" + rest)[1..] == rest;
  }

  lemma RawClosing(rest: string, current: string)
    ensures RawTokens("'" + rest, Some(QUOTE), current) == RawTokens(rest, None, current)
  {
    assert ("'" + rest)[1..] == rest;
  }

  lemma CleanIsTokenized(v: string, rest: string)
    requires QUOTE !in v && BACKSLASH !in v
    ensures RawTokens(ShellQuote(v) + rest, None, "") == RawTokens(rest, None, v)
  {
    hide RawTokens, Escape, Safe;
    assert "" + v == v;
    EscapeOfClean(v);
    if v == "" {
      RawOpening("'" + rest, "");
      RawClosing(rest, "");
      assert ShellQuote(v) + rest == "'" + ("'" + rest);
    } else if AllSafe(v) {
      SafeOutsideQuotes(v, rest, "");
    } else {
      assert "'" + (v + "'") + rest == "'" + (v + ("'" + rest));
      RawOpening(v + ("'" + rest), "");
      CleanInQuotes(v, "'" + rest, "");
      RawClosing(rest, v);
    }
  }

  lemma RawBlank(rest: string, current: string)
    requires current != ""
    ensures RawTokens(" " + rest, None, current) == [current] + RawTokens(rest, None, "")
    ensures RawTokens("", None, current) == [current] && RawTokens("", None, "") == []
  {
    assert (" " + rest)[1..] == rest;
  }

  lemma {:induction false} RawTokensOfCommandLine(vs: seq<string>)
    requires forall v :: v in vs ==> Readable(v)
    ensures RawTokens(CommandLine(vs), None, "") == vs
  {
    hide RawTokens, ShellQuote;
    RawBlank("", "x");
    if vs != [] {
      assert Readable(vs[0]) && vs == [vs[0]] + vs[1..];
      RawBlank(CommandLine(vs[1..]), vs[0]);
      if |vs| == 1 {
        CleanIsTokenized(vs[0], "");
        assert ShellQuote(vs[0]) + "" == ShellQuote(vs[0]);
      } else {
        CleanIsTokenized(vs[0], " " + CommandLine(vs[1..]));
        RawTokensOfCommandLine(vs[1..]);
      }
    }
  }

  /** The tokenizer reads back every list of non-empty values free of quotes and backslashes, and a few more. */
  lemma TokenizerReadsBack(vs: seq<string>)
    requires forall v :: v in vs ==> Readable(v)
    ensures Tokens(CommandLine(vs)) == vs
  {
    hide RawTokens, CommandLine;
    RawTokensOfCommandLine(vs);
    forall i | 0 <= i < |vs| ensures UnquoteToken(vs[i]) == vs[i] {
      assert Readable(vs[i]);
    }
  }

  // ---------------------------------------------------------------- counting characters and tokens

  /** The number of double quotes. */
  ghost function DoubleQuotes(s: string): nat {
    multiset(s)[DQUOTE]
  }

  ghost function AllDoubleQuotes(ts: seq<string>): nat {
    if ts == [] then 0 else DoubleQuotes(ts[0]) + AllDoubleQuotes(ts[1..])
  }

  /** The characters of all strings, and one more for each string. */
  ghost function Size(ts: seq<string>): nat {
    if ts == [] then 0 else |ts[0]| + 1 + Size(ts[1..])
  }

  lemma SizeOfCons(t: string, ts: seq<string>)
    ensures Size([t] + ts) == |t| + 1 + Size(ts) && AllDoubleQuotes([t] + ts) == DoubleQuotes(t) + AllDoubleQuotes(ts)
  {
    hide DoubleQuotes;
    assert ([t] + ts)[1..] == ts;
  }

  /** What comes after the first value of a command line. */
  function Rest(vs: seq<string>): string {
    if vs == [] then "" else " " + CommandLine(vs)
  }

  lemma CommandLineFirst(vs: seq<string>)
    requires vs != []
    ensures CommandLine(vs) == ShellQuote(vs[0]) + Rest(vs[1..])
  {
    hide ShellQuote;
    assert |vs| == 1 ==> ShellQuote(vs[0]) + "" == ShellQuote(vs[0]);
  }

  lemma CountFirst(x: string)
    requires x != ""
    ensures DoubleQuotes(x) == DoubleQuotes([x[0]]) + DoubleQuotes(x[1..])
    ensures DoubleQuotes([x[0]]) == if x[0] == DQUOTE then 1 else 0
  {
    assert x == [x[0]] + x[1..];
  }

  lemma CountMore(current: string, c: char)
    ensures DoubleQuotes(current + [c]) == DoubleQuotes(current) + if c == DQUOTE then 1 else 0
  {
  }

  lemma CountSplit(u: string, w: string)
    ensures DoubleQuotes(u + w) == DoubleQuotes(u) + DoubleQuotes(w)
  {
  }

  lemma {:induction false} EscapeKeepsDoubleQuotes(v: string)
    ensures DoubleQuotes(Escape(v)) == DoubleQuotes(v)
  {
    if v != "" {
      assert v == [v[0]] + v[1..];
      EscapeKeepsDoubleQuotes(v[1..]);
    }
  }

  lemma QuoteKeepsDoubleQuotes(v: string)
    ensures DoubleQuotes(ShellQuote(v)) == DoubleQuotes(v)
    ensures DoubleQuotes("'") == 0 == DoubleQuotes("") == DoubleQuotes(" ")
  {
    EscapeKeepsDoubleQuotes(v);
  }

  lemma {:induction false} LineKeepsDoubleQuotes(vs: seq<string>)
    ensures DoubleQuotes(CommandLine(vs)) == AllDoubleQuotes(vs) == DoubleQuotes(Rest(vs))
  {
    hide DoubleQuotes, ShellQuote;
    QuoteKeepsDoubleQuotes("");
    if vs != [] {
      LineKeepsDoubleQuotes(vs[1..]);
      CommandLineFirst(vs);
      QuoteKeepsDoubleQuotes(vs[0]);
      CountSplit(ShellQuote(vs[0]), Rest(vs[1..]));
      CountSplit(" ", CommandLine(vs));
    }
  }

  /** Reading on never drops what is read so far. */
  lemma {:induction false} FirstTokenExtends(s: string, quote: Option<char>, current: string)
    ensures var raw := RawTokens(s, quote, current);
      raw != [] && current != "" ==> current <= raw[0]
    decreases |s|
  {
    if s != "" {
      var c, rest := s[0], s[1..];
      match quote
      case Some(q) =>
        if c == q {
          FirstTokenExtends(rest, None, current);
        } else if c == BACKSLASH && q == QUOTE {
          if rest == "" {
            FirstTokenExtends(rest, quote, current);
          } else {
            FirstTokenExtends(rest[1..], quote, current + [rest[0]]);
          }
        } else {
          FirstTokenExtends(rest, quote, current + [c]);
        }
      case None =>
        if IsWhitespace(c) {
          FirstTokenExtends(rest, None, "");
        } else if c == QUOTE || c == DQUOTE {
          FirstTokenExtends(rest, Some(c), current);
        } else {
          FirstTokenExtends(rest, None, current + [c]);
        }
    }
  }

  /** No token is empty, and together they hold no double quote that was not there. */
  lemma {:induction false} TokensDropDoubleQuotes(s: string, quote: Option<char>, current: string)
    ensures "" !in RawTokens(s, quote, current)
    ensures AllDoubleQuotes(RawTokens(s, quote, current)) <= DoubleQuotes(current) + DoubleQuotes(s)
    decreases |s|
  {
    hide DoubleQuotes;
    if s == "" {
      OneTokenCounts(current);
    } else {
      var c, rest := s[0], s[1..];
      CountFirst(s);
      CountMore(current, c);
      match quote
      case Some(q) =>
        if c == q {
          TokensDropDoubleQuotes(rest, None, current);
        } else if c == BACKSLASH && q == QUOTE {
          if rest == "" {
            TokensDropDoubleQuotes(rest, quote, current);
          } else {
            CountFirst(rest);
            CountMore(current, rest[0]);
            TokensDropDoubleQuotes(rest[1..], quote, current + [rest[0]]);
          }
        } else {
          TokensDropDoubleQuotes(rest, quote, current + [c]);
        }
      case None =>
        if IsWhitespace(c) {
          TokensDropDoubleQuotes(rest, None, "");
          QuoteKeepsDoubleQuotes("");
          SizeOfCons(current, RawTokens(rest, None, ""));
          assert [] + RawTokens(rest, None, "") == RawTokens(rest, None, "");
        } else if c == QUOTE || c == DQUOTE {
          TokensDropDoubleQuotes(rest, Some(c), current);
        } else {
          TokensDropDoubleQuotes(rest, None, current + [c]);
        }
    }
  }

  lemma OneTokenCounts(t: string)
    ensures AllDoubleQuotes([t]) == DoubleQuotes(t) && Size([t]) == |t| + 1
  {
    assert [t] == [t] + [];
    SizeOfCons(t, []);
  }

  // ---------------------------------------------------------------- reading quoted text

  lemma EscapeFirst(v: string)
    requires v != ""
    ensures Escape(v) == EscapedChar(v[0]) + Escape(v[1..])
  {
  }

  lemma {:induction false} EscapeAppends(u: string, w: string)
    ensures Escape(u + w) == Escape(u) + Escape(w)
  {
    hide Escape, EscapedChar;
    if u == "" {
      EscapeOfClean("");
      assert u + w == w;
    } else {
      EscapeAppends(u[1..], w);
      Splits(u, w);
      EscapeFirst(u);
      EscapeFirst(u + w);
      Associates(EscapedChar(u[0]), Escape(u[1..]), Escape(w));
    }
  }

  lemma Splits(u: string, w: string)
    requires u != ""
    ensures u + w != "" && (u + w)[0] == u[0] && (u + w)[1..] == u[1..] + w
  {
  }

  lemma Associates(a: string, b: string, c: string)
    ensures a + (b + c) == a + b + c
  {
  }

  lemma PlainInQuotes(c: char, more: string, current: string)
    requires c != QUOTE && c != BACKSLASH
    ensures RawTokens([c] + more, Some(QUOTE), current) == RawTokens(more, Some(QUOTE), current + [c])
  {
    assert ([c] + more)[1..] == more;
  }

  lemma EscapedInQuotes(c: char, more: string, current: string)
    ensures RawTokens("\\" + ([c] + more), Some(QUOTE), current) == RawTokens(more, Some(QUOTE), current + [c])
  {
    var s := "\\" + ([c] + more);
    assert s[1..] == [c] + more;
    assert s[1..][1..] == more;
  }

  lemma BackslashOutsideQuotes(more: string, current: string)
    ensures RawTokens("\\" + more, None, current) == RawTokens(more, None, current + "\\")
  {
    assert ("\\" + more)[1..] == more;
  }

  /** A quote met inside quotes closes them and leaves a backslash. */
  lemma QuoteInQuotes(more: string, current: string)
    ensures RawTokens("'\\''" + more, Some(QUOTE), current) == RawTokens(more, None, current + "\\")
  {
    hide RawTokens;
    assert "'\\''" + more == "'" + ("\\" + ("'" + ("'" + more)));
    RawClosing("\\" + ("'" + ("'" + more)), current);
    BackslashOutsideQuotes("'" + ("'" + more), current);
    RawOpening("'" + more, current + "\\");
    RawClosing(more, current + "\\");
  }

  /** Outside quotes it opens them, escapes the quote and closes them. */
  lemma QuoteOutsideQuotes(more: string, current: string)
    ensures RawTokens("'\\''" + more, None, current) == RawTokens(more, None, current + "'")
  {
    hide RawTokens;
    assert "'\\''" + more == "'" + ("\\" + (['\''] + ("'" + more)));
    RawOpening("\\" + (['\''] + ("'" + more)), current);
    EscapedInQuotes('\'', "'" + more, current);
    RawClosing(more, current + "'");
  }

  /** After a backslash it is taken, and the next backslash takes the next quote. */
  lemma EscapedQuoteInQuotes(more: string, current: string)
    ensures RawTokens("\\'\\''" + more, Some(QUOTE), current) == RawTokens(more, None, current + "''")
  {
    hide RawTokens;
    assert "\\'\\''" + more == "\\" + (['\''] + ("\\" + (['\''] + ("'" + more))));
    EscapedInQuotes('\'', "\\" + (['\''] + ("'" + more)), current);
    EscapedInQuotes('\'', "'" + more, current + "'");
    RawClosing(more, current + "'" + "'");
    assert current + "'" + "'" == current + "''";
  }

  // ---------------------------------------------------------------- tokens take no more room than values

  /** The tokens take at most `size`, or some double quote was spent as a delimiter. */
  ghost predicate Bounded(raw: seq<string>, size: nat, doubleQuotes: nat) {
    Size(raw) <= size || AllDoubleQuotes(raw) < doubleQuotes
  }

  predicate SingleOrNone(quote: Option<char>) {
    quote.Some? ==> quote.value == QUOTE
  }

  function Flip(quote: Option<char>): Option<char> {
    if quote.None? then Some(QUOTE) else None
  }

  lemma QuoteFlips(rest: string, quote: Option<char>, current: string)
    requires SingleOrNone(quote)
    ensures RawTokens("'" + rest, quote, current) == RawTokens(rest, Flip(quote), current)
  {
    RawOpening(rest, current);
    RawClosing(rest, current);
  }

  lemma {:induction false} LineBound(vs: seq<string>, quote: Option<char>, current: string)
    requires vs != [] && SingleOrNone(quote)
    ensures Bounded(
              RawTokens(CommandLine(vs), quote, current), |current| + Size(vs),
              DoubleQuotes(current) + AllDoubleQuotes(vs))
    decreases Size(vs), 2
  {
    hide RawTokens, Escape, DoubleQuotes, CommandLine, Rest;
    var v, rest := vs[0], vs[1..];
    CommandLineFirst(vs);
    if v != "" && AllSafe(v) {
      SafeIsTaken(v, Rest(rest), quote, current);
      CountSplit(current, v);
      RestBound(rest, quote, current + v);
    } else {
      EscapeOfClean("");
      assert ShellQuote(v) == "'" + (Escape(v) + "'");
      Associates("'", Escape(v) + "'", Rest(rest));
      Associates(Escape(v), "'", Rest(rest));
      QuoteFlips(Escape(v) + ("'" + Rest(rest)), quote, current);
      TextBound(v, rest, Flip(quote), current);
    }
  }

  lemma SafeIsTaken(v: string, rest: string, quote: Option<char>, current: string)
    requires AllSafe(v) && SingleOrNone(quote)
    ensures RawTokens(v + rest, quote, current) == RawTokens(rest, quote, current + v)
  {
    if quote.None? {
      SafeOutsideQuotes(v, rest, current);
    } else {
      assert QUOTE !in v && BACKSLASH !in v;
      CleanInQuotes(v, rest, current);
    }
  }

  lemma {:induction false} RestBound(vs: seq<string>, quote: Option<char>, current: string)
    requires SingleOrNone(quote)
    ensures Bounded(
              RawTokens(Rest(vs), quote, current), |current| + 1 + Size(vs),
              DoubleQuotes(current) + AllDoubleQuotes(vs))
    decreases Size(vs), 3
  {
    hide DoubleQuotes, CommandLine;
    var line := CommandLine(vs);
    if vs == [] {
      OneTokenCounts(current);
    } else if quote.Some? {
      assert (" " + line)[1..] == line;
      QuoteKeepsDoubleQuotes("");
      CountSplit(current, " ");
      LineBound(vs, quote, current + " ");
    } else {
      assert (" " + line)[1..] == line;
      QuoteKeepsDoubleQuotes("");
      LineBound(vs, None, "");
      SizeOfCons(current, RawTokens(line, None, ""));
      assert [] + RawTokens(line, None, "") == RawTokens(line, None, "");
    }
  }

  ghost predicate TextBounded(raw: seq<string>, x: string, vs: seq<string>, current: string) {
    Bounded(raw, |current| + 1 + |x| + Size(vs), DoubleQuotes(current) + DoubleQuotes(x) + AllDoubleQuotes(vs))
  }

  lemma {:induction false} TextBound(x: string, vs: seq<string>, quote: Option<char>, current: string)
    requires SingleOrNone(quote)
    ensures TextBounded(RawTokens(Escape(x) + ("'" + Rest(vs)), quote, current), x, vs, current)
    decreases |x| + 1 + Size(vs), 1
  {
    hide Escape, RawTokens, DoubleQuotes, Rest, EscapedChar;
    if x == "" {
      EscapeOfClean("");
      assert Escape("") + ("'" + Rest(vs)) == "'" + Rest(vs);
      QuoteFlips(Rest(vs), quote, current);
      RestBound(vs, Flip(quote), current);
    } else {
      EscapeFirst(x);
      Associates(EscapedChar(x[0]), Escape(x[1..]), "'" + Rest(vs));
      if quote.Some? {
        InQuotes(x, vs, current);
      } else {
        OutsideQuotes(x, vs, current);
      }
    }
  }

  lemma OutsideQuotes(x: string, vs: seq<string>, current: string)
    requires x != ""
    ensures var raw := RawTokens(EscapedChar(x[0]) + (Escape(x[1..]) + ("'" + Rest(vs))), None, current);
      TextBounded(raw, x, vs, current)
    decreases |x| + 1 + Size(vs), 0
  {
    hide Escape, DoubleQuotes, Rest;
    var c, more := x[0], Escape(x[1..]) + ("'" + Rest(vs));
    CountFirst(x);
    CountMore(current, c);
    if c == QUOTE {
      QuoteOutsideQuotes(more, current);
      TextBound(x[1..], vs, None, current + "'");
    } else {
      assert ([c] + more)[1..] == more;
      if c == DQUOTE {
        TokensDropDoubleQuotes(more, Some(DQUOTE), current);
        TextKeepsDoubleQuotes(x[1..], vs);
      } else if !IsWhitespace(c) {
        TextBound(x[1..], vs, None, current + [c]);
      } else {
        TextBound(x[1..], vs, None, "");
        QuoteKeepsDoubleQuotes("");
        SizeOfCons(current, RawTokens(more, None, ""));
        assert [] + RawTokens(more, None, "") == RawTokens(more, None, "");
      }
    }
  }

  lemma TextKeepsDoubleQuotes(x: string, vs: seq<string>)
    ensures DoubleQuotes(Escape(x) + ("'" + Rest(vs))) == DoubleQuotes(x) + AllDoubleQuotes(vs)
  {
    hide DoubleQuotes, Escape, Rest;
    EscapeKeepsDoubleQuotes(x);
    LineKeepsDoubleQuotes(vs);
    QuoteKeepsDoubleQuotes("");
    CountSplit("'", Rest(vs));
    CountSplit(Escape(x), "'" + Rest(vs));
  }

  lemma InQuotes(x: string, vs: seq<string>, current: string)
    requires x != ""
    ensures var raw := RawTokens(EscapedChar(x[0]) + (Escape(x[1..]) + ("'" + Rest(vs))), Some(QUOTE), current);
      TextBounded(raw, x, vs, current)
    decreases |x| + 1 + Size(vs), 0, 1
  {
    hide RawTokens, Escape, DoubleQuotes, Rest;
    var c, more := x[0], Escape(x[1..]) + ("'" + Rest(vs));
    CountFirst(x);
    CountMore(current, c);
    if c == QUOTE {
      QuoteInQuotes(more, current);
      CountMore(current, BACKSLASH);
      TextBound(x[1..], vs, None, current + "\\");
    } else if c == BACKSLASH {
      AfterBackslash(x, vs, current);
    } else {
      PlainInQuotes(c, more, current);
      TextBound(x[1..], vs, Some(QUOTE), current + [c]);
    }
  }

  lemma AfterBackslash(x: string, vs: seq<string>, current: string)
    requires x != "" && x[0] == BACKSLASH
    ensures var raw := RawTokens("\\" + (Escape(x[1..]) + ("'" + Rest(vs))), Some(QUOTE), current);
      TextBounded(raw, x, vs, current)
    decreases |x| + 1 + Size(vs), 0, 0
  {
    hide RawTokens, Escape, DoubleQuotes, Rest;
    CountFirst(x);
    if |x| == 1 {
      CountMore(current, QUOTE);
      LastBackslash(x, Rest(vs), current);
      RestBound(vs, Some(QUOTE), current + "'");
    } else {
      var y := x[1..];
      var more := Escape(y[1..]) + ("'" + Rest(vs));
      EscapeFirst(y);
      CountFirst(y);
      Associates(EscapedChar(y[0]), Escape(y[1..]), "'" + Rest(vs));
      if y[0] == QUOTE {
        assert "\\" + ("'\\''" + more) == "\\'\\''" + more;
        EscapedQuoteInQuotes(more, current);
        CountMore(current, QUOTE);
        CountMore(current + "'", QUOTE);
        assert current + "'" + "'" == current + "''";
        TextBound(y[1..], vs, None, current + "''");
      } else {
        EscapedInQuotes(y[0], more, current);
        CountMore(current, y[0]);
        TextBound(y[1..], vs, Some(QUOTE), current + [y[0]]);
      }
    }
  }

  lemma LastBackslash(x: string, rest: string, current: string)
    requires |x| == 1
    ensures RawTokens("\\" + (Escape(x[1..]) + ("'" + rest)), Some(QUOTE), current)
        == RawTokens(rest, Some(QUOTE), current + "'")
  {
    hide RawTokens;
    assert Escape(x[1..]) + ("'" + rest) == [QUOTE] + rest;
    EscapedInQuotes(QUOTE, rest, current);
  }

  // ---------------------------------------------------------------- no unreadable value is read back

  /** Unquoting drops characters from the tokens it strips, and adds no double quote. */
  lemma {:induction false} UnquotedIsSmaller(raw: seq<string>)
    ensures Size(Unquoted(raw)) <= Size(raw) && AllDoubleQuotes(Unquoted(raw)) <= AllDoubleQuotes(raw)
    ensures Size(Unquoted(raw)) == Size(raw) ==>
        Unquoted(raw) == raw && forall t :: t in raw ==> !Wrapped(t, QUOTE) && !Wrapped(t, DQUOTE)
  {
    if raw != [] {
      hide DoubleQuotes, UnquoteToken;
      UnquotedFirst(raw[0], raw[1..]);
      assert raw == [raw[0]] + raw[1..];
      UnquotedIsSmaller(raw[1..]);
      UnquoteIsSmaller(raw[0]);
      SizeOfCons(UnquoteToken(raw[0]), Unquoted(raw[1..]));
      SizeOfCons(raw[0], raw[1..]);
    }
  }

  lemma UnquoteIsSmaller(t: string)
    ensures |UnquoteToken(t)| <= |t| && DoubleQuotes(UnquoteToken(t)) <= DoubleQuotes(t)
    ensures |UnquoteToken(t)| == |t| ==> UnquoteToken(t) == t && !Wrapped(t, QUOTE) && !Wrapped(t, DQUOTE)
  {
    if Wrapped(t, QUOTE) || Wrapped(t, DQUOTE) {
      assert t == [t[0]] + t[1..|t| - 1] + [t[|t| - 1]];
      ReplaceKeepsDoubleQuotes(t[1..|t| - 1]);
    }
  }

  lemma {:induction false} ReplaceKeepsDoubleQuotes(s: string)
    ensures DoubleQuotes(ReplaceEscaped(s)) == DoubleQuotes(s)
  {
    if |s| >= 2 && s[0] == BACKSLASH && s[1] == QUOTE {
      assert s == [s[0], s[1]] + s[2..];
      ReplaceKeepsDoubleQuotes(s[2..]);
    } else if s != "" {
      assert s == [s[0]] + s[1..];
      ReplaceKeepsDoubleQuotes(s[1..]);
    }
  }

  predicate Marked(v: string) {
    QUOTE in v || BACKSLASH in v
  }

  lemma {:induction false} SplitAtMark(v: string) returns (u: string, w: string)
    requires Marked(v)
    ensures v == u + w && !Marked(u) && w != "" && (w[0] == QUOTE || w[0] == BACKSLASH)
  {
    assert v == [v[0]] + v[1..];
    if v[0] == QUOTE || v[0] == BACKSLASH {
      u, w := "", v;
    } else {
      u, w := SplitAtMark(v[1..]);
      u := [v[0]] + u;
    }
  }

  lemma MarkedIsQuoted(v: string)
    requires Marked(v)
    ensures ShellQuote(v) == "'" + (Escape(v) + "'")
  {
    var i :| 0 <= i < |v| && (v[i] == QUOTE || v[i] == BACKSLASH);
    assert !Safe(v[i]);
  }

  /** Reading a marked value comes to its first mark with what stands before it. */
  lemma ReadToFirstMark(u: string, w: string, rest: string)
    requires Marked(u + w) && !Marked(u)
    ensures RawTokens(ShellQuote(u + w) + rest, None, "") == RawTokens(Escape(w) + ("'" + rest), Some(QUOTE), u)
  {
    hide ShellQuote, Escape, RawTokens;
    MarkedIsQuoted(u + w);
    EscapeAppends(u, w);
    EscapeOfClean(u);
    Associates("'", Escape(u + w) + "'", rest);
    Associates(Escape(u + w), "'", rest);
    Associates(u, Escape(w), "'" + rest);
    RawOpening(u + (Escape(w) + ("'" + rest)), "");
    CleanInQuotes(u, Escape(w) + ("'" + rest), "");
    assert "" + u == u;
  }

  /** A value with a quote or a backslash is not the first token, or too little is left for the others. */
  lemma MarkedIsLost(v: string, rest: seq<string>)
    requires Marked(v)
    ensures RawTokens(ShellQuote(v) + Rest(rest), None, "") != [v] + rest
  {
    hide RawTokens, Escape, ShellQuote, Rest, Marked;
    var u, w := SplitAtMark(v);
    ReadToFirstMark(u, w, Rest(rest));
    EscapeFirst(w);
    Associates(EscapedChar(w[0]), Escape(w[1..]), "'" + Rest(rest));
    if w[0] == QUOTE {
      QuoteIsLost(u, w, rest);
    } else {
      BackslashIsLost(u, w, rest);
    }
  }

  lemma QuoteIsLost(u: string, w: string, rest: seq<string>)
    requires w != "" && w[0] == QUOTE
    ensures RawTokens("'\\''" + (Escape(w[1..]) + ("'" + Rest(rest))), Some(QUOTE), u) != [u + w] + rest
  {
    hide RawTokens, Escape, Rest;
    var more := Escape(w[1..]) + ("'" + Rest(rest));
    QuoteInQuotes(more, u);
    FirstTokenExtends(more, None, u + "\\");
    Differ(u, BACKSLASH, u + w, rest, RawTokens(more, None, u + "\\"));
  }

  /** A token that goes on from `u` with another character than the value is not the value. */
  lemma Differ(u: string, c: char, v: string, rest: seq<string>, raw: seq<string>)
    requires |u| < |v| && v[|u|] != c && (raw != [] ==> u + [c] <= raw[0])
    ensures raw != [v] + rest
  {
    assert (u + [c])[|u|] == c;
    if raw != [] {
      assert raw[0][|u|] == c;
    }
  }

  lemma BackslashIsLost(u: string, w: string, rest: seq<string>)
    requires w != "" && w[0] == BACKSLASH
    ensures RawTokens("\\" + (Escape(w[1..]) + ("'" + Rest(rest))), Some(QUOTE), u) != [u + w] + rest
  {
    hide RawTokens, Escape, Rest, DoubleQuotes;
    var v := u + w;
    if |w| == 1 {
      LastBackslash(w, Rest(rest), u);
      FirstTokenExtends(Rest(rest), Some(QUOTE), u + "'");
      Differ(u, QUOTE, v, rest, RawTokens(Rest(rest), Some(QUOTE), u + "'"));
    } else {
      var y := w[1..];
      var more := Escape(y[1..]) + ("'" + Rest(rest));
      EscapeFirst(y);
      Associates(EscapedChar(y[0]), Escape(y[1..]), "'" + Rest(rest));
      if y[0] == QUOTE {
        assert "\\" + ("'\\''" + more) == "\\'\\''" + more;
        EscapedQuoteInQuotes(more, u);
        FirstTokenExtends(more, None, u + "''");
        assert u + [QUOTE] <= u + "''";
        Differ(u, QUOTE, v, rest, RawTokens(more, None, u + "''"));
      } else {
        EscapedInQuotes(y[0], more, u);
        FirstTokenExtends(more, Some(QUOTE), u + [y[0]]);
        if y[0] == BACKSLASH {
          TextBound(y[1..], rest, Some(QUOTE), u + [y[0]]);
          CountMore(u, y[0]);
          CountFirst(w);
          CountFirst(y);
          CountSplit(u, w);
          SizeOfCons(v, rest);
        } else {
          Differ(u, y[0], v, rest, RawTokens(more, Some(QUOTE), u + [y[0]]));
        }
      }
    }
  }

  lemma {:induction false} RawTokensAreReadable(vs: seq<string>)
    requires RawTokens(CommandLine(vs), None, "") == vs
    requires forall v :: v in vs ==> !Wrapped(v, DQUOTE)
    ensures forall v :: v in vs ==> Readable(v)
  {
    hide RawTokens, CommandLine, ShellQuote;
    if vs != [] {
      var v, rest := vs[0], vs[1..];
      assert vs == [v] + rest && v in vs;
      CommandLineFirst(vs);
      TokensDropDoubleQuotes(CommandLine(vs), None, "");
      if Marked(v) {
        MarkedIsLost(v, rest);
      } else {
        CleanIsTokenized(v, Rest(rest));
        RawBlank(CommandLine(rest), v);
        if rest != [] {
          assert vs[1..] == rest;
          RawTokensAreReadable(rest);
        }
      }
    }
  }

  /** A list of values is read back exactly when each of them is readable. */
  lemma ListReadsBackExactly(vs: seq<string>)
    ensures Tokens(CommandLine(vs)) == vs <==> forall v :: v in vs ==> Readable(v)
  {
    hide RawTokens, CommandLine, Readable, DoubleQuotes;
    var raw := RawTokens(CommandLine(vs), None, "");
    if forall v :: v in vs ==> Readable(v) {
      TokenizerReadsBack(vs);
    } else if Tokens(CommandLine(vs)) == vs {
      QuoteKeepsDoubleQuotes("");
      LineBound(vs, None, "");
      UnquotedIsSmaller(raw);
      assert raw == vs;
      RawTokensAreReadable(vs);
    }
  }
}
