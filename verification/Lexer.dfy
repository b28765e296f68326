/** The tokens and lines of a configuration file, as a function of its text. */
module Lexer {

  const NUL: char := '\0'
  const MAX_ARGS: nat := 64

  datatype Token = EOF | NEWLINE | TEXT(text: string)

  /** How a word ends: with what follows it and whether that was a newline, or inside a quote. */
  datatype TextScan = Done(text: string, rest: string, newline: bool) | Unterminated(rest: string)

  predicate IsBlank(c: char) {
    c == ' ' || c == '\t'
  }

  function Blanks(t: string): (n: nat)
    ensures n <= |t| && (n < |t| ==> !IsBlank(t[n]))
  {
    if t == [] || !IsBlank(t[0]) then 0 else 1 + Blanks(t[1..])
  }

  /** Up to a closing quote or the end of the text. */
  function QuotedLength(t: string): (n: nat)
    ensures n <= |t| && (n < |t| ==> t[n] == '"' || t[n] == NUL)
    ensures forall i :: 0 <= i < n ==> t[i] != '"' && t[i] != NUL
  {
    if t == [] || t[0] == '"' || t[0] == NUL then 0 else 1 + QuotedLength(t[1..])
  }

  function CommentLength(t: string): (n: nat)
    ensures n <= |t| && (n < |t| ==> t[n] == '\n' || t[n] == NUL)
  {
    if t == [] || t[0] == '\n' || t[0] == NUL then 0 else 1 + CommentLength(t[1..])
  }

  /** What an escape puts out, and how much it takes behind the backslash: a letter that names a
      control character, and a second backslash, are read again as ordinary input. */
  datatype Escaped = Escaped(out: string, taken: nat)

  function Escape(u: string): (e: Escaped)
    requires u != [] && u[0] != NUL
    ensures e.taken <= |u| && |e.out| <= 1 && NUL !in e.out
    ensures |e.out| <= 1 + e.taken
  {
    match u[0]
    case 'n' => Escaped("\n", 0)
    case 'r' => Escaped("\r", 0)
    case 't' => Escaped("\t", 0)
    case '\\' => Escaped("\\", 0)
    case '\r' => Escaped("", if |u| > 1 && u[1] == '\n' then 1 + Blanks(u[1..]) else 1)
    case '\n' => Escaped("", 1 + Blanks(u[1..]))
    case _ => Escaped([u[0]], 1)
  }

  /** The rest of a word of which acc was read. */
  function ScanText(t: string, acc: string): (r: TextScan)
    ensures |r.rest| <= |t|
    ensures t != [] && t[0] != NUL ==> |r.rest| < |t|
    ensures NUL !in acc && r.Done? ==> NUL !in r.text
    decreases |t|
  {
    if t == [] || t[0] == NUL then Done(acc, t, false)
    else if IsBlank(t[0]) || t[0] == '\r' then Done(acc, t[1..], false)
    else if t[0] == '\n' then Done(acc, t[1..], true)
    else if t[0] == '"' then
      var n := QuotedLength(t[1..]);
      if n + 1 == |t| || t[n + 1] == NUL then Unterminated(t[n + 1..])
      else ScanText(t[n + 2..], acc + t[1..n + 1])
    else if t[0] == '\\' then
      if |t| == 1 || t[1] == NUL then Done(acc, t[1..], false)
      else
        var e := Escape(t[1..]);
        ScanText(t[1 + e.taken..], acc + e.out)
    else ScanText(t[1..], acc + [t[0]])
  }

  /** One token, what follows it, and whether a newline token is owed before that. */
  datatype Lexed = Lexed(token: Token, rest: string, newline: bool)

  function Lex(t: string): (l: Lexed)
    ensures |l.rest| <= |t| && (l.token != EOF ==> |l.rest| < |t|)
    ensures l.newline ==> l.token.TEXT?
  {
    if t == [] || t[0] == NUL then Lexed(EOF, t, false)
    else if t[0] == '\n' then Lexed(NEWLINE, t[1..], false)
    else if IsBlank(t[0]) || t[0] == '\r' then Lex(t[1..])
    else if t[0] == '#' then
      var n := CommentLength(t);
      if n < |t| && t[n] == '\n' then Lexed(NEWLINE, t[n + 1..], false) else Lexed(EOF, t[n..], false)
    else
      match ScanText(t, "")
      case Done(w, rest, newline) => Lexed(TEXT(w), rest, newline)
      case Unterminated(rest) => Lexed(EOF, rest, false)
  }

  function Tokens(t: string, newline: bool): seq<Token>
    decreases |t|, newline
  {
    if newline then [NEWLINE] + Tokens(t, false)
    else
      var l := Lex(t);
      if l.token == EOF then [] else [l.token] + Tokens(l.rest, l.newline)
  }

  /** The lines parse_config hands on: words beyond the limit are dropped, empty lines too, and
      words with no newline behind them. */
  function Group(tokens: seq<Token>, args: seq<string>): seq<seq<string>> {
    if tokens == [] then []
    else
      match tokens[0]
      case EOF => []
      case NEWLINE => (if args == [] then [] else [args]) + Group(tokens[1..], [])
      case TEXT(w) => Group(tokens[1..], if |args| < MAX_ARGS then args + [w] else args)
  }

  // ----- printing quoted words, and reading them back

  predicate Quotable(w: string) {
    '"' !in w && NUL !in w
  }

  function Quote(w: string): string {
    "\"" + w + "\""
  }

  function PrintLine(words: seq<string>): string {
    if words == [] then "\n"
    else Quote(words[0]) + (if |words| == 1 then "\n" else " " + PrintLine(words[1..]))
  }

  function Print(lines: seq<seq<string>>): string {
    if lines == [] then "" else PrintLine(lines[0]) + Print(lines[1..])
  }

  function LineTokens(words: seq<string>): seq<Token> {
    if words == [] then [NEWLINE] else [TEXT(words[0])] + LineTokens(words[1..])
  }

  function AllTokens(lines: seq<seq<string>>): seq<Token> {
    if lines == [] then [] else LineTokens(lines[0]) + AllTokens(lines[1..])
  }

  lemma {:induction false} QuotedLengthIs(w: string, t: string)
    requires Quotable(w)
    ensures QuotedLength(w + "\"" + t) == |w|
  {
    var s := w + "\"" + t;
    var n := QuotedLength(s);
    assert s[|w|] == '"' && forall i :: 0 <= i < |w| ==> s[i] == w[i] && w[i] in w;
  }

  /** A quoted word reads back as itself, whatever blank or newline is in it. */
  lemma LexQuoted(w: string, c: char, t: string)
    requires Quotable(w) && (c == ' ' || c == '\n')
    ensures Lex(Quote(w) + [c] + t) == Lexed(TEXT(w), t, c == '\n')
  {
    var s, n := Quote(w) + [c] + t, |w|;
    QuotedLengthIs(w, [c] + t);
    assert s[1..] == w + "\"" + ([c] + t);
    assert s[0] == '"' && s[n + 1] == '"' && s[1..n + 1] == w;
    assert s[n + 2..] == [c] + t;
    ScanEnd(w, c, t);
    assert "" + w == w;
    assert ScanText(s, "") == Done(w, t, c == '\n');
  }

  lemma ScanEnd(w: string, c: char, t: string)
    requires c == ' ' || c == '\n'
    ensures ScanText([c] + t, w) == Done(w, t, c == '\n')
  {
    assert ([c] + t)[1..] == t;
  }

  lemma TokensStep(t: string, l: Lexed)
    requires Lex(t) == l && l.token != EOF
    ensures Tokens(t, false) == [l.token] + Tokens(l.rest, l.newline)
  {
    hide Lex;
  }

  lemma {:induction false} LineRoundTrip(words: seq<string>, t: string)
    requires forall w :: w in words ==> Quotable(w)
    ensures Tokens(PrintLine(words) + t, false) == LineTokens(words) + Tokens(t, false)
  {
    hide Lex, Quote;
    if words == [] {
      LexNewline(t);
      TokensStep("\n" + t, Lexed(NEWLINE, t, false));
    } else {
      var w, more := words[0], words[1..];
      if more == [] {
        LexQuoted(w, '\n', t);
        assert PrintLine(words) + t == Quote(w) + ['\n'] + t;
        TokensStep(PrintLine(words) + t, Lexed(TEXT(w), t, true));
        assert LineTokens(words) == [TEXT(w)] + [NEWLINE];
        assert Tokens(t, true) == [NEWLINE] + Tokens(t, false);
      } else {
        var rest := PrintLine(more) + t;
        LexQuoted(w, ' ', rest);
        assert PrintLine(words) + t == Quote(w) + [' '] + rest;
        TokensStep(PrintLine(words) + t, Lexed(TEXT(w), rest, false));
        LineRoundTrip(more, t);
      }
      assert [TEXT(w)] + (LineTokens(more) + Tokens(t, false)) == LineTokens(words) + Tokens(t, false);
    }
  }

  lemma LexNewline(t: string)
    ensures Lex("\n" + t) == Lexed(NEWLINE, t, false)
  {
    assert ("\n" + t)[1..] == t;
  }

  /** A comment ends with its line, or with the text. */
  lemma LexCommentLine(c: string, t: string)
    requires '\n' !in c && NUL !in c
    ensures Lex("#" + c + "\n" + t) == Lexed(NEWLINE, t, false)
    ensures Lex("#" + c + [NUL] + t) == Lexed(EOF, [NUL] + t, false)
  {
    CommentLengthIs("#" + c, "\n" + t);
    CommentLengthIs("#" + c, [NUL] + t);
    var s, e := "#" + c + "\n" + t, "#" + c + [NUL] + t;
    assert s == "#" + c + ("\n" + t) && e == "#" + c + ([NUL] + t);
    assert s[|c| + 2..] == t && e[|c| + 1..] == [NUL] + t;
  }

  lemma {:induction false} CommentLengthIs(c: string, t: string)
    requires '\n' !in c && NUL !in c && t != "" && (t[0] == '\n' || t[0] == NUL)
    ensures CommentLength(c + t) == |c|
  {
    if c == "" {
      assert c + t == t;
    } else {
      assert (c + t)[1..] == c[1..] + t;
      CommentLengthIs(c[1..], t);
    }
  }

  /** Blanks and carriage returns between tokens are passed over. */
  lemma LexBlank(b: char, t: string)
    requires b == ' ' || b == '\t' || b == '\r'
    ensures Lex([b] + t) == Lex(t)
  {
    assert ([b] + t)[1..] == t;
  }

  /** A backslash in front of a line end takes the line end and the blanks of the next line out of the
      word. */
  lemma LinesFold(blanks: string, t: string, acc: string)
    requires (forall i :: 0 <= i < |blanks| ==> blanks[i] == ' ' || blanks[i] == '\t')
    requires t != "" && t[0] != ' ' && t[0] != '\t'
    ensures ScanText("\\\n" + (blanks + t), acc) == ScanText(t, acc)
  {
    hide ScanText, Escape;
    var u := "\n" + (blanks + t);
    FoldTaken(blanks, t);
    Folded(u, acc);
    assert acc + "" == acc;
    FoldText(blanks + t);
    assert u[1 + |blanks|..] == t;
  }

  /** In front of a carriage return it takes only that, whatever follows. */
  lemma ReturnFolds(t: string, acc: string)
    ensures ScanText("\\\r" + t, acc) == ScanText(t, acc)
  {
    hide ScanText, Escape;
    var u := "\r" + t;
    ReturnTaken(t);
    Folded(u, acc);
    assert acc + "" == acc;
    FoldText(t);
    assert u[1..] == t;
  }

  lemma FoldText(t: string)
    ensures "\\\n" + t == "\\" + ("\n" + t) && "\\\r" + t == "\\" + ("\r" + t)
  {
    assert "\\\n" == "\\" + "\n" && "\\\r" == "\\" + "\r";
  }

  /** So a carriage return and a newline behind a backslash end the word and its line. */
  lemma ReturnEndsLine(t: string, acc: string)
    ensures ScanText("\\\r\n" + t, acc) == Done(acc, t, true)
  {
    hide Escape;
    ReturnFolds("\n" + t, acc);
    assert "\\\r" + ("\n" + t) == "\\\r\n" + t && ("\n" + t)[1..] == t;
  }

  lemma FoldTaken(blanks: string, t: string)
    requires (forall i :: 0 <= i < |blanks| ==> blanks[i] == ' ' || blanks[i] == '\t')
    requires t != "" && t[0] != ' ' && t[0] != '\t'
    ensures Escape("\n" + (blanks + t)) == Escaped("", 1 + |blanks|)
  {
    hide Blanks;
    BlanksAre(blanks, t);
    assert ("\n" + (blanks + t))[1..] == blanks + t;
  }

  lemma ReturnTaken(t: string)
    ensures Escape("\r" + t) == Escaped("", 1)
  {
    assert ("\r" + t)[1..] == t;
  }

  lemma Folded(u: string, acc: string)
    requires u != "" && u[0] != NUL
    ensures ScanText("\\" + u, acc) == ScanText(u[Escape(u).taken..], acc + Escape(u).out)
  {
    hide Escape;
    assert ("\\" + u)[1..] == u && ("\\" + u)[1 + Escape(u).taken..] == u[Escape(u).taken..];
  }

  lemma {:induction false} BlanksAre(blanks: string, t: string)
    requires (forall i :: 0 <= i < |blanks| ==> blanks[i] == ' ' || blanks[i] == '\t')
    requires t != "" && t[0] != ' ' && t[0] != '\t'
    ensures Blanks(blanks + t) == |blanks|
  {
    if blanks == "" {
      assert blanks + t == t;
    } else {
      assert (blanks + t)[1..] == blanks[1..] + t;
      BlanksAre(blanks[1..], t);
    }
  }

  predicate AllQuotable(lines: seq<seq<string>>) {
    forall i, j :: 0 <= i < |lines| && 0 <= j < |lines[i]| ==> Quotable(lines[i][j])
  }

  /** The tokens of printed lines are their words, with a newline behind each line. */
  lemma {:induction false} TokensRoundTrip(lines: seq<seq<string>>)
    requires AllQuotable(lines)
    ensures Tokens(Print(lines) + [NUL], false) == AllTokens(lines)
  {
    hide PrintLine, LineTokens, Lex, Quotable;
    if lines == [] {
      LexEnd();
    } else {
      var rest := Print(lines[1..]) + [NUL];
      assert Print(lines) + [NUL] == PrintLine(lines[0]) + rest;
      LineRoundTrip(lines[0], rest);
      TokensRoundTrip(lines[1..]);
    }
  }

  lemma LexEnd()
    ensures Tokens("" + [NUL], false) == []
  {
    assert "" + [NUL] == [NUL];
  }

  /** The lines that survive: not empty, and cut to the limit. */
  function Kept(lines: seq<seq<string>>): seq<seq<string>> {
    if lines == [] then []
    else (if lines[0] == [] then [] else [if |lines[0]| <= MAX_ARGS then lines[0] else lines[0][..MAX_ARGS]])
         + Kept(lines[1..])
  }

  function Cut(args: seq<string>): seq<string> {
    if |args| <= MAX_ARGS then args else args[..MAX_ARGS]
  }

  lemma {:induction false} GroupLine(words: seq<string>, args: seq<string>, rest: seq<Token>)
    requires |args| <= MAX_ARGS
    ensures Group(LineTokens(words) + rest, args) ==
      (if args + words == [] then [] else [Cut(args + words)]) + Group(rest, [])
    decreases |words|
  {
    hide Cut;
    var all := LineTokens(words) + rest;
    if words == [] {
      assert args + words == args && all[1..] == rest;
      CutShort(args);
    } else {
      assert all[1..] == LineTokens(words[1..]) + rest;
      if |args| < MAX_ARGS {
        GroupLine(words[1..], args + [words[0]], rest);
        assert args + [words[0]] + words[1..] == args + words;
      } else {
        GroupLine(words[1..], args, rest);
        CutSame(args, words[1..], words);
      }
    }
  }

  lemma CutShort(args: seq<string>)
    requires |args| <= MAX_ARGS
    ensures Cut(args) == args
  {
  }

  lemma CutSame(args: seq<string>, x: seq<string>, y: seq<string>)
    requires |args| == MAX_ARGS
    ensures Cut(args + x) == args == Cut(args + y)
  {
    assert (args + x)[..MAX_ARGS] == args && (args + y)[..MAX_ARGS] == args;
    assert |x| == 0 ==> args + x == args;
    assert |y| == 0 ==> args + y == args;
  }

  lemma {:induction false} GroupAll(lines: seq<seq<string>>)
    ensures Group(AllTokens(lines), []) == Kept(lines)
  {
    hide LineTokens;
    if lines != [] {
      GroupLine(lines[0], [], AllTokens(lines[1..]));
      assert [] + lines[0] == lines[0];
      GroupAll(lines[1..]);
    }
  }

  lemma {:induction false} KeptAll(lines: seq<seq<string>>)
    ensures |Kept(lines)| <= |lines|
    ensures Kept(lines) == lines <==> forall i :: 0 <= i < |lines| ==> 0 < |lines[i]| <= 64
  {
    if lines != [] {
      KeptAll(lines[1..]);
      if 0 < |lines[0]| <= MAX_ARGS {
        assert lines == [lines[0]] + lines[1..];
        assert Kept(lines)[1..] == Kept(lines[1..]);
      } else if |lines[0]| > MAX_ARGS {
        assert |Kept(lines)[0]| != |lines[0]|;
      }
    }
  }

  /** For all lines of quotable words: printing and parsing gives the same lines exactly when no
      line is empty or longer than the limit. */
  lemma LinesRoundTrip(lines: seq<seq<string>>)
    requires AllQuotable(lines)
    ensures Group(Tokens(Print(lines) + [NUL], false), []) == lines <==>
            forall i :: 0 <= i < |lines| ==> 0 < |lines[i]| <= 64
  {
    hide *;
    TokensRoundTrip(lines);
    GroupAll(lines);
    KeptAll(lines);
  }

  // ----- comments between the lines

  datatype Printed = Words(words: seq<string>) | Comment(text: string)

  predicate Proper(p: Printed) {
    match p
    case Words(words) => forall w :: w in words ==> Quotable(w)
    case Comment(c) => '\n' !in c && NUL !in c
  }

  function PrintAll(ps: seq<Printed>): string {
    if ps == [] then ""
    else (match ps[0] case Words(words) => PrintLine(words) case Comment(c) => "#" + c + "\n") + PrintAll(ps[1..])
  }

  /** The lines without the comments. */
  function WordLines(ps: seq<Printed>): seq<seq<string>> {
    if ps == [] then [] else (match ps[0] case Words(words) => [words] case Comment(_) => []) + WordLines(ps[1..])
  }

  /** A comment counts as an empty line. */
  function AsLines(ps: seq<Printed>): seq<seq<string>> {
    if ps == [] then [] else [match ps[0] case Words(words) => words case Comment(_) => []] + AsLines(ps[1..])
  }

  lemma {:induction false} PrintedTokens(ps: seq<Printed>)
    requires forall i :: 0 <= i < |ps| ==> Proper(ps[i])
    ensures Tokens(PrintAll(ps) + [NUL], false) == AllTokens(AsLines(ps))
  {
    hide PrintLine, LineTokens, Lex, Quotable;
    if ps == [] {
      LexEnd();
    } else {
      var rest := PrintAll(ps[1..]) + [NUL];
      PrintedTokens(ps[1..]);
      assert AsLines(ps)[1..] == AsLines(ps[1..]);
      match ps[0]
      case Words(words) =>
        assert PrintAll(ps) + [NUL] == PrintLine(words) + rest;
        LineRoundTrip(words, rest);
      case Comment(c) =>
        assert PrintAll(ps) + [NUL] == "#" + c + "\n" + rest;
        LexCommentLine(c, rest);
        TokensStep("#" + c + "\n" + rest, Lexed(NEWLINE, rest, false));
        EmptyLine();
    }
  }

  lemma EmptyLine()
    ensures LineTokens([]) == [NEWLINE]
  {
  }

  lemma {:induction false} KeptWords(ps: seq<Printed>)
    ensures Kept(AsLines(ps)) == Kept(WordLines(ps))
  {
    if ps != [] {
      KeptWords(ps[1..]);
      assert AsLines(ps)[1..] == AsLines(ps[1..]);
      if ps[0].Words? {
        assert WordLines(ps)[1..] == WordLines(ps[1..]);
      } else {
        assert WordLines(ps) == WordLines(ps[1..]) && [] + Kept(AsLines(ps[1..])) == Kept(AsLines(ps[1..]));
      }
    }
  }

  /** With comment lines anywhere before, between and behind: the same lines, exactly when no line is
      empty or longer than the limit. */
  lemma CommentedRoundTrip(ps: seq<Printed>)
    requires forall i :: 0 <= i < |ps| ==> Proper(ps[i])
    ensures Group(Tokens(PrintAll(ps) + [NUL], false), []) == WordLines(ps) <==>
            forall i :: 0 <= i < |WordLines(ps)| ==> 0 < |WordLines(ps)[i]| <= 64
  {
    hide *;
    PrintedTokens(ps);
    GroupAll(AsLines(ps));
    KeptWords(ps);
    KeptAll(WordLines(ps));
  }

  /** Unlike documented, the letter of an escape is not used up: it is read again behind the
      control character it names, and a second backslash starts another escape. */
  lemma EscapeReadAgain(c: char, t: string, acc: string)
    requires c == 'n' || c == 'r' || c == 't' || c == '\\'
    ensures ScanText("\\" + ([c] + t), acc) ==
      ScanText([c] + t, acc + (if c == 'n' then "\n" else if c == 'r' then "\r" else if c == 't' then "\t" else "\\"))
  {
    var s := "\\" + ([c] + t);
    assert s[0] == '\\' && s[1] == c && s[1..] == [c] + t;
    assert s[1 + 0..] == [c] + t;
  }

  // ----- printing words with escapes, and reading them back

  /** The letter that names a control character behind a backslash. */
  predicate IsLetter(c: char) {
    c == 'n' || c == 'r' || c == 't'
  }

  predicate IsControl(c: char) {
    c == '\n' || c == '\r' || c == '\t'
  }

  predicate NeedsBackslash(c: char) {
    c == ' ' || c == '"' || c == '#' || c == '\\'
  }

  /** A character as the documentation would have it written. */
  function EscapeChar(c: char): (s: string)
    ensures 1 <= |s| <= 2
  {
    if c == '\n' then "\\n"
    else if c == '\r' then "\\r"
    else if c == '\t' then "\\t"
    else if NeedsBackslash(c) then ['\\', c]
    else [c]
  }

  function EscapeWord(w: string): string {
    if w == "" then "" else EscapeChar(w[0]) + EscapeWord(w[1..])
  }

  /** A character that is read as itself wherever it stands. */
  predicate Ordinary(c: char) {
    c != NUL && !IsControl(c) && !NeedsBackslash(c)
  }

  /** No control character, and behind every backslash one that does not start another escape. */
  predicate Survives(w: string) {
    forall i :: 0 <= i < |w| ==> SurvivesAt(w, i)
  }

  predicate SurvivesAt(w: string, i: nat)
    requires i < |w|
  {
    !IsControl(w[i]) && (w[i] == '\\' ==> i + 1 < |w| && Ordinary(w[i + 1]) && !IsLetter(w[i + 1]))
  }

  lemma SurvivesStep(w: string)
    requires w != ""
    ensures Survives(w) <==> SurvivesAt(w, 0) && Survives(w[1..])
  {
    var tail := w[1..];
    assert forall i :: 0 <= i < |tail| ==> SurvivesAt(tail, i) == SurvivesAt(w, i + 1);
    if SurvivesAt(w, 0) && Survives(tail) {
      forall i | 0 <= i < |w| ensures SurvivesAt(w, i) {
        assert i > 0 ==> SurvivesAt(tail, i - 1);
      }
    }
  }

  lemma {:induction false} ScanGrows(t: string, acc: string)
    ensures var r := ScanText(t, acc); r.Done? ==> |acc| <= |r.text| && (r.newline ==> |r.rest| < |t|)
    decreases |t|
  {
    hide Escape, QuotedLength;
    if t != [] && t[0] != NUL && !IsBlank(t[0]) && t[0] != '\r' && t[0] != '\n' {
      if t[0] == '"' {
        var n := QuotedLength(t[1..]);
        if n + 1 < |t| && t[n + 1] != NUL {
          ScanGrows(t[n + 2..], acc + t[1..n + 1]);
        }
      } else if t[0] == '\\' {
        if |t| > 1 && t[1] != NUL {
          var e := Escape(t[1..]);
          ScanGrows(t[1 + e.taken..], acc + e.out);
        }
      } else {
        ScanGrows(t[1..], acc + [t[0]]);
      }
    }
  }

  // how the scanner takes one printed character

  lemma PlainChar(c: char, t: string, acc: string)
    requires Printable(Plain(c))
    ensures ScanText([c] + t, acc) == ScanText(t, acc + [c])
  {
    assert ([c] + t)[1..] == t;
  }

  lemma BackslashCopies(c: char, t: string, acc: string)
    requires Printable(Behind(c))
    ensures ScanText("\\" + ([c] + t), acc) == ScanText(t, acc + [c])
  {
    var s := "\\" + ([c] + t);
    assert s[0] == '\\' && s[1] == c && s[1..] == [c] + t && s[2..] == t;
  }

  lemma LetterFollows(c: char, t: string, acc: string) returns (x: char)
    requires IsLetter(c)
    ensures ScanText("\\" + ([c] + t), acc) == ScanText(t, acc + [x, c])
  {
    x := if c == 'n' then '\n' else if c == 'r' then '\r' else '\t';
    EscapeReadAgain(c, t, acc);
    PlainChar(c, t, acc + [x]);
    assert acc + [x] + [c] == acc + [x, c];
  }

  lemma BackslashAgain(t: string, acc: string)
    ensures ScanText("\\" + ("\\" + t), acc) == ScanText("\\" + t, acc + "\\")
  {
    EscapeReadAgain('\\', t, acc);
  }

  lemma EscapeSplit(w: string, t: string)
    requires w != ""
    ensures var u := EscapeWord(w[1..]) + t;
            EscapeWord(w) + t ==
              if Ordinary(w[0]) || w[0] == NUL then [w[0]] + u
              else "\\" + ([EscapeChar(w[0])[1]] + u)
  {
    hide EscapeWord, EscapeChar;
    var e, u := EscapeChar(w[0]), EscapeWord(w[1..]) + t;
    EscapeFirst(w);
    assert EscapeWord(w) + t == e + u;
    if |e| == 2 {
      assert e == [e[0]] + [e[1]];
      assert [e[0]] + [e[1]] + u == [e[0]] + ([e[1]] + u);
    }
  }

  lemma EscapeFirst(w: string)
    requires w != ""
    ensures EscapeWord(w) == EscapeChar(w[0]) + EscapeWord(w[1..])
    ensures var e := EscapeChar(w[0]); if Ordinary(w[0]) || w[0] == NUL then e == [w[0]] else |e| == 2 && e[0] == '\\'
  {
  }

  // what is read is never shorter than the word, and longer if an escape is read again

  lemma {:induction false} NotShorter(w: string, t: string, acc: string)
    requires NUL !in w
    ensures var r := ScanText(EscapeWord(w) + t, acc); r.Done? ==> |r.text| >= |acc| + |w|
    decreases |w|, 0
  {
    hide ScanText;
    if w == "" {
      ScanGrows(EscapeWord(w) + t, acc);
    } else {
      var x, u := w[0], EscapeWord(w[1..]) + t;
      assert x in w;
      EscapeSplit(w, t);
      if Ordinary(x) {
        PlainChar(x, u, acc);
        NotShorter(w[1..], t, acc + [x]);
      } else if IsControl(x) {
        var y := LetterFollows(EscapeChar(x)[1], u, acc);
        NotShorter(w[1..], t, acc + [y, EscapeChar(x)[1]]);
      } else if x == '\\' {
        BackslashAgain(u, acc);
        NotShorterBehind(w[1..], t, acc + "\\");
      } else {
        BackslashCopies(x, u, acc);
        NotShorter(w[1..], t, acc + [x]);
      }
    }
  }

  lemma {:induction false} NotShorterBehind(w: string, t: string, acc: string)
    requires NUL !in w
    ensures var r := ScanText("\\" + (EscapeWord(w) + t), acc);
            r.Done? ==> |r.text| >= |acc| + |w| && (w != "" && (!Ordinary(w[0]) || IsLetter(w[0])) ==> |r.text| > |acc| + |w|)
    decreases |w|, 1
  {
    hide ScanText;
    if w == "" {
      ScanGrows("\\" + (EscapeWord(w) + t), acc);
    } else {
      var x, u := w[0], EscapeWord(w[1..]) + t;
      assert x in w;
      EscapeSplit(w, t);
      if IsLetter(x) {
        var y := LetterFollows(x, u, acc);
        NotShorter(w[1..], t, acc + [y, x]);
      } else if Ordinary(x) {
        BackslashCopies(x, u, acc);
        NotShorter(w[1..], t, acc + [x]);
      } else {
        var l := EscapeChar(x)[1];
        BackslashAgain([l] + u, acc);
        if IsControl(x) {
          var y := LetterFollows(l, u, acc + "\\");
          NotShorter(w[1..], t, acc + "\\" + [y, l]);
        } else if x == '\\' {
          BackslashAgain(u, acc + "\\");
          NotShorterBehind(w[1..], t, acc + "\\" + "\\");
        } else {
          BackslashCopies(x, u, acc + "\\");
          NotShorter(w[1..], t, acc + "\\" + [x]);
        }
      }
    }
  }

  /** A backslash at the end of a word takes in what should end it. */
  lemma BackslashAtEnd(c: char, t: string, acc: string)
    requires c == ' ' || c == '\n'
    ensures ScanText("\\" + ([c] + t), acc) != Done(acc, t, c == '\n')
  {
    hide ScanText;
    if c == ' ' {
      BackslashCopies(c, t, acc);
      ScanGrows(t, acc + [c]);
    } else {
      var u := [c] + t;
      Folded(u, acc);
      assert u[1..] == t;
      assert Escape(u) == Escaped("", 1 + Blanks(t));
      assert u[1 + Blanks(t)..] == t[Blanks(t)..] && acc + "" == acc;
      ScanGrows(t[Blanks(t)..], acc);
    }
  }

  lemma {:induction false} ScanEscaped(w: string, c: char, t: string, acc: string)
    requires NUL !in w && (c == ' ' || c == '\n')
    ensures ScanText(EscapeWord(w) + ([c] + t), acc) == Done(acc + w, t, c == '\n') <==> Survives(w)
    decreases |w|
  {
    hide ScanText, Survives, EscapeWord, EscapeChar;
    if w == "" {
      ScanEnd(acc, c, t);
      NothingEscaped(c, t, acc);
    } else {
      var x, e := w[0], [c] + t;
      assert x in w;
      EscapeSplit(w, e);
      SurvivesStep(w);
      OneMore(acc, w);
      if Ordinary(x) {
        PlainChar(x, EscapeWord(w[1..]) + e, acc);
        ScanEscaped(w[1..], c, t, acc + [x]);
      } else if IsControl(x) {
        ControlLengthens(w, c, t, acc);
      } else if x == '\\' {
        SpecialChar(x);
        BackslashAgain(EscapeWord(w[1..]) + e, acc);
        ScanBehind(w, c, t, acc);
      } else {
        SpecialChar(x);
        BackslashCopies(x, EscapeWord(w[1..]) + e, acc);
        ScanEscaped(w[1..], c, t, acc + [x]);
      }
    }
  }

  lemma OneMore(acc: string, w: string)
    requires w != ""
    ensures acc + [w[0]] + w[1..] == acc + w
  {
  }

  lemma SpecialChar(c: char)
    requires NeedsBackslash(c)
    ensures EscapeChar(c) == "\\" + [c]
  {
  }

  lemma ControlLengthens(w: string, c: char, t: string, acc: string)
    requires NUL !in w && w != "" && IsControl(w[0])
    ensures ScanText(EscapeWord(w) + ([c] + t), acc) != Done(acc + w, t, c == '\n')
  {
    hide ScanText, EscapeWord;
    var e, l := [c] + t, EscapeChar(w[0])[1];
    EscapeSplit(w, e);
    var y := LetterFollows(l, EscapeWord(w[1..]) + e, acc);
    NotShorter(w[1..], e, acc + [y, l]);
  }

  lemma ScanBehind(w: string, c: char, t: string, acc: string)
    requires NUL !in w && (c == ' ' || c == '\n') && w != "" && w[0] == '\\'
    ensures ScanText("\\" + (EscapeWord(w[1..]) + ([c] + t)), acc + "\\") == Done(acc + w, t, c == '\n') <==> Survives(w)
    decreases |w|, 0
  {
    hide ScanText, Survives, EscapeWord, EscapeChar;
    var e, tail, acc1 := [c] + t, w[1..], acc + "\\";
    SurvivesStep(w);
    OneMore(acc, w);
    assert "\\" == ['\\'];
    if tail == "" {
      NothingEscaped(c, t, acc1);
      BackslashAtEnd(c, t, acc1);
    } else if Ordinary(tail[0]) && !IsLetter(tail[0]) {
      EscapeSplit(tail, e);
      SurvivesStep(tail);
      BackslashCopies(tail[0], EscapeWord(tail[1..]) + e, acc1);
      ScanEscaped(tail[1..], c, t, acc1 + [tail[0]]);
      OneMore(acc1, tail);
    } else {
      NotShorterBehind(tail, e, acc1);
    }
  }

  lemma NothingEscaped(c: char, t: string, acc: string)
    ensures Survives("") && EscapeWord("") + ([c] + t) == [c] + t && acc + "" == acc
  {
  }

  /** For every word: written with the documented escapes it is read back as itself exactly if it is
      not empty, has no control character, and no backslash in front of a special character, of
      another backslash, of the letters n, r, t, or at its end. */
  lemma EscapeRoundTrip(w: string, c: char, t: string)
    requires NUL !in w && (c == ' ' || c == '\n')
    ensures Lex(EscapeWord(w) + ([c] + t)) == Lexed(TEXT(w), t, c == '\n') <==> w != "" && Survives(w)
  {
    hide ScanText, Survives, EscapeWord, Lex;
    var e := [c] + t;
    if w == "" {
      NothingEscaped(c, t, "");
      BlankOrEnd(c, t);
    } else {
      WordBegins(w, e);
      ScanEscaped(w, c, t, "");
      assert "" + w == w;
    }
  }

  lemma WordBegins(w: string, e: string)
    requires w != "" && NUL !in w
    ensures Lex(EscapeWord(w) + e) ==
      match ScanText(EscapeWord(w) + e, "")
      case Done(x, rest, newline) => Lexed(TEXT(x), rest, newline)
      case Unterminated(rest) => Lexed(EOF, rest, false)
  {
    hide ScanText, EscapeWord, EscapeChar;
    assert w[0] in w;
    EscapeSplit(w, e);
  }

  lemma BlankOrEnd(c: char, t: string)
    requires c == ' ' || c == '\n'
    ensures Lex([c] + t) == if c == '\n' then Lexed(NEWLINE, t, false) else Lex(t)
  {
    assert ([c] + t)[1..] == t;
  }

  // ----- words in pieces

  /** What a word is made of: characters that stand for themselves, a quoted part, or a backslash and
      a character that it takes the meaning from. */
  datatype Piece = Plain(c: char) | Quoted(q: string) | Behind(c: char)

  predicate Printable(p: Piece) {
    match p
    case Plain(c) => c != NUL && c != ' ' && c != '\t' && c != '\r' && c != '\n' && c != '"' && c != '\\'
    case Quoted(q) => Quotable(q)
    case Behind(c) => c != NUL && c != '\r' && c != '\n' && c != '\\' && c != 'n' && c != 'r' && c != 't'
  }

  function PrintPiece(p: Piece): string {
    match p
    case Plain(c) => [c]
    case Quoted(q) => Quote(q)
    case Behind(c) => ['\\', c]
  }

  function PrintPieces(ps: seq<Piece>): string {
    if ps == [] then "" else PrintPiece(ps[0]) + PrintPieces(ps[1..])
  }

  function TextOf(ps: seq<Piece>): string {
    if ps == [] then "" else Meaning(ps[0]) + TextOf(ps[1..])
  }

  function Meaning(p: Piece): string {
    match p
    case Plain(c) => [c]
    case Quoted(q) => q
    case Behind(c) => [c]
  }

  lemma OnePiece(p: Piece, t: string, acc: string)
    requires Printable(p)
    ensures ScanText(PrintPiece(p) + t, acc) == ScanText(t, acc + Meaning(p))
  {
    hide ScanText, Quote;
    match p
    case Plain(c) => PlainChar(c, t, acc);
    case Quoted(q) => QuotedOff(q, t, acc);
    case Behind(c) =>
      BackslashCopies(c, t, acc);
      assert ['\\', c] + t == "\\" + ([c] + t);
  }

  lemma QuotedOff(q: string, t: string, acc: string)
    requires Quotable(q)
    ensures ScanText(Quote(q) + t, acc) == ScanText(t, acc + q)
  {
    var s := Quote(q) + t;
    QuotedLengthIs(q, t);
    assert s[1..] == q + "\"" + t && s[1..|q| + 1] == q && s[|q| + 1] == '"' && s[|q| + 2..] == t;
  }

  /** A word in pieces reads as the pieces put together, up to a blank or the line end. */
  lemma {:induction false} ScanPieces(ps: seq<Piece>, t: string, acc: string)
    requires forall i :: 0 <= i < |ps| ==> Printable(ps[i])
    ensures ScanText(PrintPieces(ps) + t, acc) == ScanText(t, acc + TextOf(ps))
    decreases |ps|
  {
    hide ScanText, Printable, PrintPiece, Meaning;
    if ps == [] {
      assert "" + t == t && acc + "" == acc;
    } else {
      var rest := PrintPieces(ps[1..]) + t;
      assert PrintPieces(ps) + t == PrintPiece(ps[0]) + rest;
      var x := Meaning(ps[0]);
      OnePiece(ps[0], rest, acc);
      ScanPieces(ps[1..], t, acc + x);
      assert acc + x + TextOf(ps[1..]) == acc + TextOf(ps);
    }
  }

  /** The token of such a word, for each way it can end; a quote that is not closed ends the text. */
  lemma WordInPieces(ps: seq<Piece>, t: string)
    requires ps != [] && ps[0] != Plain('#') && forall i :: 0 <= i < |ps| ==> Printable(ps[i])
    ensures forall c :: c == ' ' || c == '\t' || c == '\r' || c == '\n' ==>
      Lex(PrintPieces(ps) + ([c] + t)) == Lexed(TEXT(TextOf(ps)), t, c == '\n')
    ensures Lex(PrintPieces(ps) + ([NUL] + t)) == Lexed(TEXT(TextOf(ps)), [NUL] + t, false)
    ensures forall q :: Quotable(q) ==> Lex(PrintPieces(ps) + ("\"" + (q + ([NUL] + t)))) == Lexed(EOF, [NUL] + t, false)
  {
    hide ScanText, TextOf;
    forall c | c == ' ' || c == '\t' || c == '\r' || c == '\n'
      ensures Lex(PrintPieces(ps) + ([c] + t)) == Lexed(TEXT(TextOf(ps)), t, c == '\n')
    {
      PieceStarts(ps, [c] + t);
      ScanPieces(ps, [c] + t, "");
      WordEnds(c, t, "" + TextOf(ps));
      assert "" + TextOf(ps) == TextOf(ps);
    }
    PieceStarts(ps, [NUL] + t);
    ScanPieces(ps, [NUL] + t, "");
    TextEnds(t, "" + TextOf(ps));
    assert "" + TextOf(ps) == TextOf(ps);
    forall q | Quotable(q)
      ensures Lex(PrintPieces(ps) + ("\"" + (q + ([NUL] + t)))) == Lexed(EOF, [NUL] + t, false)
    {
      PieceStarts(ps, "\"" + (q + ([NUL] + t)));
      ScanPieces(ps, "\"" + (q + ([NUL] + t)), "");
      NotClosed(q, t, "" + TextOf(ps));
    }
  }

  lemma PieceStarts(ps: seq<Piece>, t: string)
    requires ps != [] && ps[0] != Plain('#') && Printable(ps[0])
    ensures var s := PrintPieces(ps) + t;
            Lex(s) == match ScanText(s, "") case Done(w, rest, newline) => Lexed(TEXT(w), rest, newline)
                                            case Unterminated(rest) => Lexed(EOF, rest, false)
  {
    hide ScanText;
  }

  lemma WordEnds(c: char, t: string, acc: string)
    requires c == ' ' || c == '\t' || c == '\r' || c == '\n'
    ensures ScanText([c] + t, acc) == Done(acc, t, c == '\n')
  {
    assert ([c] + t)[1..] == t;
  }

  lemma TextEnds(t: string, acc: string)
    ensures ScanText([NUL] + t, acc) == Done(acc, [NUL] + t, false)
  {
  }

  lemma {:induction false} OpenLength(q: string, t: string)
    requires Quotable(q)
    ensures QuotedLength(q + ([NUL] + t)) == |q|
  {
    var s := q + ([NUL] + t);
    var n := QuotedLength(s);
    assert s[|q|] == NUL && forall i :: 0 <= i < |q| ==> s[i] == q[i] && q[i] in q;
  }

  lemma NotClosed(q: string, t: string, acc: string)
    requires Quotable(q)
    ensures ScanText("\"" + (q + ([NUL] + t)), acc) == Unterminated([NUL] + t)
  {
    var s := "\"" + (q + ([NUL] + t));
    OpenLength(q, t);
    assert s[1..] == q + ([NUL] + t) && s[|q| + 1..] == [NUL] + t && s[|q| + 1] == NUL;
  }

  /** A line break in a word comes back with the letter of its escape. */
  lemma EscapeExample(t: string)
    ensures EscapeWord("a\nb") == "a\\nb" && Lex("a\\nb" + ("\n" + t)) == Lexed(TEXT("a\nnb"), t, true)
  {
    hide ScanText;
    var e := "\n" + t;
    assert EscapeWord("b") == "b" + EscapeWord("") && EscapeWord("\nb") == "\\n" + EscapeWord("b");
    assert "a\\nb" + e == ['a'] + ("\\" + (['n'] + (['b'] + e)));
    PlainChar('a', "\\" + (['n'] + (['b'] + e)), "");
    EscapeReadAgain('n', ['b'] + e, "a");
    PlainChar('n', ['b'] + e, "a\n");
    PlainChar('b', e, "a\nn");
    ScanEnd("a\nnb", '\n', t);
    assert "" + ['a'] == "a" && "a" + "\n" == "a\n" && "a\n" + ['n'] == "a\nn" && "a\nn" + ['b'] == "a\nnb";
  }

  /** A backslash in front of an ordinary letter is read back: it alone does not lose a word. */
  lemma BackslashExample(t: string)
    ensures Lex(EscapeWord("\\a") + ("\n" + t)) == Lexed(TEXT("\\a"), t, true)
    ensures Lex(EscapeWord("\\n") + ("\n" + t)) != Lexed(TEXT("\\n"), t, true)
  {
    hide Lex, EscapeWord;
    EscapeRoundTrip("\\a", '\n', t);
    EscapeRoundTrip("\\n", '\n', t);
    assert Survives("\\a");
    assert !SurvivesAt("\\n", 0);
  }
}
