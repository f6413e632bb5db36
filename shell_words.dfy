/**
 * A reader for the part of the POSIX shell command language that the remote
 * command uses: words separated by blanks, commands separated by `;` or a
 * newline, single-quoted text, and a backslash that quotes the next character.
 * Any other character with a meaning to the shell (`$`, `"`, `*`, ...) is
 * reported as unsupported rather than given a meaning.
 */
module ShellWords {
  import opened Wrappers

  /** Characters that a POSIX shell does not take literally outside quotes. */
  predicate IsShellSpecial(c: char) {
    || c == '|' || c == '&' || c == ';' || c == '<' || c == '>' || c == '(' || c == ')'
    || c == '$' || c == '`' || c == '\\' || c == '"' || c == '\'' || c == ' ' || c == '\t'
    || c == '\n' || c == '*' || c == '?' || c == '[' || c == ']' || c == '#' || c == '~'
    || c == '{' || c == '}' || c == '!'
  }

  predicate IsPlainWord(w: string) {
    forall i :: 0 <= i < |w| ==> !IsShellSpecial(w[i])
  }

  datatype Mode = Unquoted | SingleQuoted | Escaped

  /** The commands read, each a list of words; or why reading stopped. */
  datatype Reading = Commands(commands: seq<seq<string>>) | Unterminated | Unsupported(c: char)

  /** The word being read so far, if one has started. */
  function Current(cur: Option<string>): string {
    match cur
    case None => ""
    case Some(w) => w
  }

  /** The words of the current command, with the word being read added if one has started. */
  function Flush(words: seq<string>, cur: Option<string>): seq<string> {
    match cur
    case None => words
    case Some(w) => words + [w]
  }

  /**
   * What the reader holds between characters: the mode, the commands read so
   * far, the words of the current command and the word being read, if any.
   */
  datatype Reader = Reader(mode: Mode, done: seq<seq<string>>, words: seq<string>, cur: Option<string>)

  datatype Step = Next(next: Reader) | Stop(result: Reading)

  /** The reader's step on one character. */
  function Feed(r: Reader, c: char): Step {
    match r.mode
    case SingleQuoted =>
      if c == '\'' then Next(r.(mode := Unquoted))
      else Next(r.(cur := Some(Current(r.cur) + [c])))
    case Escaped =>
      if c == '\n' then Stop(Unsupported(c))
      else Next(r.(mode := Unquoted, cur := Some(Current(r.cur) + [c])))
    case Unquoted =>
      if c == ';' || c == '\n' then Next(Reader(Unquoted, r.done + [Flush(r.words, r.cur)], [], None))
      else if c == ' ' || c == '\t' then Next(r.(words := Flush(r.words, r.cur), cur := None))
      else if c == '\'' then Next(r.(mode := SingleQuoted, cur := Some(Current(r.cur))))
      else if c == '\\' then Next(r.(mode := Escaped, cur := Some(Current(r.cur))))
      else if IsShellSpecial(c) then Stop(Unsupported(c))
      else Next(r.(cur := Some(Current(r.cur) + [c])))
  }

  /** The end of the line: it ends the last command, unless a quote or an escape is still open. */
  function Finish(r: Reader): Reading {
    if r.mode == Unquoted then Commands(r.done + [Flush(r.words, r.cur)]) else Unterminated
  }

  /** Reads `s` from the reader state `r`. */
  function Read(s: string, r: Reader): Reading
    decreases |s|
  {
    if s == [] then Finish(r)
    else
      match Feed(r, s[0])
      case Next(r') => Read(s[1..], r')
      case Stop(result) => result
  }

  const Start := Reader(Unquoted, [], [], None)

  /** The commands a shell reads from the command line `s`. */
  function ReadCommandLine(s: string): Reading {
    Read(s, Start)
  }

  /** Reading a character the reader steps over. */
  lemma ReadCons(c: char, rest: string, r: Reader)
    requires Feed(r, c).Next?
    ensures Read([c] + rest, r) == Read(rest, Feed(r, c).next)
  {
  }

  /** Unquoted plain characters extend the current word. */
  lemma {:induction false} ReadPlainWord(w: string, rest: string, r: Reader)
    requires r.mode == Unquoted && IsPlainWord(w)
    ensures Read(w + rest, r) == Read(rest, if w == [] then r else r.(cur := Some(Current(r.cur) + w)))
    decreases |w|
  {
    if w == [] {
      assert w + rest == rest;
    } else {
      assert w + rest == [w[0]] + (w[1..] + rest);
      assert !IsShellSpecial(w[0]);
      var r1 := r.(cur := Some(Current(r.cur) + [w[0]]));
      assert Feed(r, w[0]) == Next(r1);
      ReadCons(w[0], w[1..] + rest, r);
      ReadPlainWord(w[1..], rest, r1);
      assert Current(r.cur) + [w[0]] + w[1..] == Current(r.cur) + w;
      if w[1..] == [] {
        assert w == [w[0]];
      }
    }
  }

  /** Words, each followed by one blank. */
  function Spaced(ws: seq<string>): string {
    if ws == [] then "" else ws[0] + " " + Spaced(ws[1..])
  }

  /** A plain word and the blank after it add the word to the current command. */
  lemma ReadWordBlank(w: string, tail: string, r: Reader)
    requires r.mode == Unquoted && r.cur == None
    requires w != [] && IsPlainWord(w)
    ensures Read(w + ([' '] + tail), r) == Read(tail, r.(words := r.words + [w]))
  {
    ReadPlainWord(w, [' '] + tail, r);
    var r1 := r.(cur := Some(Current(r.cur) + w));
    assert Current(r.cur) + w == w;
    assert Feed(r1, ' ') == Next(r.(words := r.words + [w]));
    ReadCons(' ', tail, r1);
  }

  /** Plain words separated by blanks join the current command one by one. */
  lemma {:induction false} ReadSpaced(ws: seq<string>, rest: string, r: Reader)
    requires r.mode == Unquoted && r.cur == None
    requires forall i :: 0 <= i < |ws| ==> ws[i] != [] && IsPlainWord(ws[i])
    ensures Read(Spaced(ws) + rest, r) == Read(rest, r.(words := r.words + ws))
    decreases |ws|
  {
    if ws == [] {
      assert Spaced(ws) + rest == rest;
      assert r.words + ws == r.words;
    } else {
      var tail := Spaced(ws[1..]) + rest;
      assert Spaced(ws) + rest == ws[0] + ([' '] + tail);
      ReadWordBlank(ws[0], tail, r);
      ReadSpaced(ws[1..], rest, r.(words := r.words + [ws[0]]));
      assert r.words + [ws[0]] + ws[1..] == r.words + ws;
    }
  }

  /** Text without a closing quote leaves a single-quoted string open to the end. */
  lemma {:induction false} ReadUnclosedQuote(t: string, r: Reader)
    requires r.mode == SingleQuoted && '\'' !in t
    ensures Read(t, r) == Unterminated
    decreases |t|
  {
    if t != [] {
      assert t[0] in t;
      assert forall c :: c in t[1..] ==> c in t;
      assert t == [t[0]] + t[1..];
      ReadCons(t[0], t[1..], r);
      ReadUnclosedQuote(t[1..], Feed(r, t[0]).next);
    }
  }

  /** `s` written between single quotes, each `'` in it written as `'\''`. */
  function QuoteWord(s: string): string {
    "'" + EscapeQuotes(s) + "'"
  }

  function EscapeQuotes(s: string): string {
    if s == [] then ""
    else (if s[0] == '\'' then "'\\''" else [s[0]]) + EscapeQuotes(s[1..])
  }

  /** Without a single quote in it, nothing is escaped. */
  lemma {:induction false} EscapeQuotesIdentity(s: string)
    requires '\'' !in s
    ensures EscapeQuotes(s) == s
  {
    if s != [] {
      assert s[0] in s;
      assert forall c :: c in s[1..] ==> c in s;
      EscapeQuotesIdentity(s[1..]);
      assert [s[0]] + s[1..] == s;
    }
  }

  /** Inside single quotes, `'\''` closes the quote, adds an escaped quote and opens the quote again. */
  lemma ReadQuoteEscape(rest: string, r: Reader)
    requires r.mode == SingleQuoted && r.cur.Some?
    ensures Read("'\\''" + rest, r) == Read(rest, r.(cur := Some(r.cur.value + "'")))
  {
    var w := r.cur.value;
    assert "'\\''" + rest == ['\''] + (['\\'] + (['\''] + (['\''] + rest)));
    var q1 := r.(mode := Unquoted);
    var q2 := r.(mode := Escaped);
    var q3 := r.(mode := Unquoted, cur := Some(w + "'"));
    assert Feed(r, '\'') == Next(q1);
    ReadCons('\'', ['\\'] + (['\''] + (['\''] + rest)), r);
    assert Feed(q1, '\\') == Next(q2);
    ReadCons('\\', ['\''] + (['\''] + rest), q1);
    assert Feed(q2, '\'') == Next(q3);
    ReadCons('\'', ['\''] + rest, q2);
    assert Feed(q3, '\'') == Next(r.(cur := Some(w + "'")));
    ReadCons('\'', rest, q3);
  }

  /** Inside single quotes, any character but `'` joins the word. */
  lemma ReadQuotedChar(c: char, rest: string, r: Reader)
    requires r.mode == SingleQuoted && r.cur.Some? && c != '\''
    ensures Read([c] + rest, r) == Read(rest, r.(cur := Some(r.cur.value + [c])))
  {
  }

  /** Inside single quotes, the escaped form of `s` adds exactly `s` to the word being read. */
  lemma {:induction false} ReadEscaped(s: string, rest: string, r: Reader)
    requires r.mode == SingleQuoted && r.cur.Some?
    ensures Read(EscapeQuotes(s) + rest, r) == Read(rest, r.(cur := Some(r.cur.value + s)))
    decreases |s|
  {
    var w := r.cur.value;
    if s == [] {
      assert EscapeQuotes(s) + rest == rest;
      assert w + s == w;
      assert r.(cur := Some(w + s)) == r;
    } else {
      var tail := EscapeQuotes(s[1..]) + rest;
      if s[0] == '\'' {
        assert EscapeQuotes(s) + rest == "'\\''" + tail;
        ReadQuoteEscape(tail, r);
      } else {
        assert EscapeQuotes(s) + rest == [s[0]] + tail;
        ReadQuotedChar(s[0], tail, r);
      }
      ReadEscaped(s[1..], rest, r.(cur := Some(w + [s[0]])));
      assert w + [s[0]] + s[1..] == w + s;
    }
  }

  /** A quoted word reads back as the word itself, whatever characters it holds. */
  lemma QuoteWordReadsBack(s: string, rest: string, r: Reader)
    requires r.mode == Unquoted && r.cur == None
    ensures Read(QuoteWord(s) + rest, r) == Read(rest, r.(cur := Some(s)))
  {
    var r1 := r.(mode := SingleQuoted, cur := Some(""));
    assert QuoteWord(s) + rest == ['\''] + (EscapeQuotes(s) + (['\''] + rest));
    assert Feed(r, '\'') == Next(r1);
    ReadCons('\'', EscapeQuotes(s) + (['\''] + rest), r);
    ReadEscaped(s, ['\''] + rest, r1);
    assert "" + s == s;
    var r2 := r1.(cur := Some(s));
    assert Feed(r2, '\'') == Next(r.(cur := Some(s)));
    ReadCons('\'', rest, r2);
  }
}
