/** The tokenizer as it works in place: words are compacted inside the text they are read from. */
module Tokenizer {
  import opened Lexer
  import opened Sequences

  datatype Kind = T_EOF | T_TEXT | T_NEWLINE

  /** The C string w is stored at p. */
  predicate IsString(m: string, p: nat, w: string) {
    p + |w| < |m| && m[p..p + |w|] == w && m[p + |w|] == NUL && NUL !in w
  }

  /** The string at p is w and lies in text that is not looked at again. */
  predicate Settled(m: string, ptr: nat, p: nat, w: string) {
    IsString(m, p, w) && (p + |w| < ptr || (p + |w| == ptr && ptr < |m| && m[ptr] == NUL))
  }

  /** m became m', with only text between the two cursors changed, and none at the end of input. */
  predicate Advanced(m: string, ptr: nat, m': string, ptr': nat) {
    && ptr <= ptr' < |m| == |m'| && m'[..ptr] == m[..ptr]
    && (m[ptr] == NUL ==> m' == m)
  }

  lemma StaysSettled(m: string, ptr: nat, m': string, ptr': nat, p: nat, w: string)
    requires Advanced(m, ptr, m', ptr') && Settled(m, ptr, p, w)
    requires m[ptr] == NUL ==> ptr' == ptr
    ensures Settled(m', ptr', p, w)
  {
    if m[ptr] != NUL {
      assert m'[p..p + |w|] == m'[..ptr][p..p + |w|] == m[..ptr][p..p + |w|] == m[p..p + |w|];
      assert m'[p + |w|] == m'[..ptr][p + |w|] == m[..ptr][p + |w|];
    }
  }

  function KindOf(t: Token): Kind {
    match t
    case EOF => T_EOF
    case NEWLINE => T_NEWLINE
    case TEXT(_) => T_TEXT
  }

  class ParseState {
    const buf: array<char>
    var ptr: nat
    var text: nat
    var newline: bool

    constructor (buf: array<char>)
      requires buf.Length > 0 && buf[buf.Length - 1] == NUL
      ensures Valid() && this.buf == buf && ptr == 0 && !newline
    {
      this.buf, ptr, text, newline := buf, 0, 0, false;
    }

    ghost predicate Valid()
      reads this, buf
    {
      ptr < buf.Length && buf[buf.Length - 1] == NUL
    }

    /** What next_token is to return. */
    ghost function Next(): Lexed
      requires Valid()
      reads this, buf
    {
      if newline then Lexed(NEWLINE, buf[ptr..], false) else Lex(buf[ptr..])
    }

    method NextToken() returns (kind: Kind)
      requires Valid()
      modifies this, buf
      ensures Valid() && Advanced(old(buf[..]), old(ptr), buf[..], ptr)
      ensures var l := old(Next());
              kind == KindOf(l.token) && buf[ptr..] == l.rest && newline == l.newline
              && (l.token.TEXT? ==> old(ptr) <= text && Settled(buf[..], ptr, text, l.token.text))
      ensures kind == T_EOF || old(newline) || old(ptr) < ptr
    {
      hide Lex, ScanText, CommentLength, Settled;
      if newline {
        newline := false;
        return T_NEWLINE;
      }
      var x := SkipSpace(ptr);
      if buf[x] == NUL || buf[x] == '\n' || buf[x] == '#' {
        kind := ReadLineEnd(x);
      } else {
        LexText(buf[x..]);
        kind := ReadText(x);
        KeepsFront(old(buf[..]), buf[..], x, old(ptr));
      }
    }

    /** The end of a line, of the text, or a comment up to there. */
    method ReadLineEnd(x: nat) returns (kind: Kind)
      requires Valid() && ptr <= x < buf.Length && (buf[x] == NUL || buf[x] == '\n' || buf[x] == '#')
      modifies this`ptr
      ensures Valid() && x <= ptr && (kind == T_EOF || x < ptr)
      ensures buf[x] == NUL ==> ptr == x && kind == T_EOF
      ensures kind != T_TEXT && Lex(buf[x..]) == Lexed(if kind == T_EOF then EOF else NEWLINE, buf[ptr..], false)
    {
      hide Lex, ScanText, CommentLength;
      LexFirst(buf[x..]);
      Tail(buf[..], x, 0);
      if buf[x] == NUL {
        ptr, kind := x, T_EOF;
      } else if buf[x] == '\n' {
        Tail(buf[..], x, 1);
        ptr, kind := x + 1, T_NEWLINE;
      } else {
        kind := ReadComment(x);
      }
    }

    method ReadComment(x: nat) returns (kind: Kind)
      requires Valid() && x < buf.Length && buf[x] == '#'
      modifies this`ptr
      ensures Valid() && x < ptr && kind != T_TEXT
      ensures Lex(buf[x..]) == Lexed(if kind == T_EOF then EOF else NEWLINE, buf[ptr..], false)
    {
      hide Lex, CommentLength;
      ghost var m := buf[..];
      var n := SkipComment(x);
      LexComment(m, x, n);
      if buf[n] == '\n' {
        ptr, kind := n + 1, T_NEWLINE;
      } else {
        ptr, kind := n, T_EOF;
      }
    }

    method SkipSpace(from: nat) returns (x: nat)
      requires Valid() && from < buf.Length
      ensures from <= x < buf.Length && buf[x] != ' ' && buf[x] != '\t' && buf[x] != '\r'
      ensures Lex(buf[x..]) == Lex(buf[from..])
      ensures buf[from] == NUL ==> x == from
    {
      hide Lex, ScanText, CommentLength;
      ghost var m := buf[..];
      x := from;
      while buf[x] == ' ' || buf[x] == '\t' || buf[x] == '\r'
        invariant from <= x < buf.Length && Lex(m[x..]) == Lex(m[from..])
        invariant buf[from] == NUL ==> x == from
        decreases buf.Length - x
      {
        LexFirst(m[x..]);
        Tail(m, x, 1);
        x := x + 1;
      }
    }

    method SkipComment(start: nat) returns (x: nat)
      requires Valid() && start < buf.Length
      ensures start <= x < buf.Length && x - start == CommentLength(buf[start..])
      ensures buf[x] == '\n' || buf[x] == NUL
    {
      x := start;
      while buf[x] != NUL && buf[x] != '\n'
        invariant start <= x < buf.Length
        invariant CommentLength(buf[start..]) == x - start + CommentLength(buf[x..])
        decreases buf.Length - x
      {
        assert buf[x..][1..] == buf[x + 1..];
        x := x + 1;
      }
    }

    /** The word that starts at start: its characters are moved up against it. */
    method ReadText(start: nat) returns (kind: Kind)
      requires Valid() && ptr <= start < buf.Length && buf[start] != NUL && !newline
      modifies this, buf
      ensures Valid() && start < ptr && buf[..start] == old(buf[..start])
      ensures var r := ScanText(old(buf[start..]), "");
              && buf[ptr..] == r.rest
              && match r
                 case Done(w, _, nl) => kind == T_TEXT && newline == nl && text == start && Settled(buf[..], ptr, text, w)
                 case Unterminated(_) => kind == T_EOF && !newline
    {
      hide ScanText, Settled;
      ghost var t, acc := buf[start..], "";
      var x, s, more := start, start, true;
      text, kind := start, T_TEXT;
      while more
        invariant Valid() && start <= x && buf[..start] == old(buf[..start]) && text == start
        invariant more ==> s <= x < buf.Length && !newline && (x == start ==> buf[x] != NUL)
        invariant more ==> start <= s && Holds(buf[..], start, s, acc) && ScanText(buf[x..], acc) == ScanText(t, "")
        invariant !more ==> start < ptr && Finished(ScanText(t, ""), kind, start)
        modifies this`newline, this`ptr, buf
        decreases more, buf.Length - x
      {
        more, x, s, kind, acc := ReadPiece(start, x, s, acc);
      }
    }

    /** The word was read as r says. */
    ghost predicate Finished(r: TextScan, kind: Kind, start: nat)
      requires ptr <= buf.Length
      reads this, buf
    {
      && buf[ptr..] == r.rest
      && match r
         case Done(w, _, nl) => kind == T_TEXT && newline == nl && Settled(buf[..], ptr, start, w)
         case Unterminated(_) => kind == T_EOF && !newline
    }

    /** One character of a word, an escape, or a quoted part; or its end. */
    method ReadPiece(start: nat, x: nat, s: nat, ghost acc: string)
      returns (more: bool, x': nat, s': nat, kind: Kind, ghost acc': string)
      requires Valid() && start <= s <= x < buf.Length && !newline && Holds(buf[..], start, s, acc)
      requires x == start ==> buf[x] != NUL
      modifies this`newline, this`ptr, buf
      ensures Valid() && buf[..start] == old(buf[..start])
      ensures more ==>
        && x < x' < buf.Length && start <= s' <= x' && !newline && Holds(buf[..], start, s', acc')
        && ScanText(buf[x'..], acc') == ScanText(old(buf[x..]), acc)
      ensures !more ==> start <= x' && start < ptr && Finished(ScanText(old(buf[x..]), acc), kind, start)
    {
      hide ScanText, Settled, Escape, QuotedLength, Holds;
      more, x', s', kind, acc' := false, x, s, T_TEXT, acc;
      ghost var m := buf[..];
      ScanFirst(m[x..], acc);
      Tail(m, x, 1);
      if buf[x] == NUL || buf[x] == ' ' || buf[x] == '\t' || buf[x] == '\r' || buf[x] == '\n' {
        ReadEnd(start, x, s, acc);
      } else if buf[x] == '"' {
        more, x', s', kind, acc' := ReadQuoted(start, x, s, acc);
      } else if buf[x] == '\\' {
        if buf[x + 1] == NUL {
          EndText(start, s, x + 1, acc);
        } else {
          x', s', acc' := ReadEscape(start, x, s, acc);
          more := true;
        }
      } else {
        ReadPlain(start, x, s, acc);
        more, x', s', acc' := true, x + 1, s + 1, acc + [m[x]];
      }
    }

    /** A character that stands for itself. */
    method ReadPlain(start: nat, x: nat, s: nat, ghost acc: string)
      requires Valid() && start <= s <= x && x + 1 < buf.Length && Holds(buf[..], start, s, acc) && buf[x] != NUL
      modifies buf
      ensures Valid() && buf[..start] == old(buf[..start]) && buf[x + 1..] == old(buf[x + 1..])
      ensures Holds(buf[..], start, s + 1, acc + [old(buf[x])])
    {
      hide Holds, Copied;
      ghost var m := buf[..];
      Store(s, buf[x]);
      CopiedOne(m, s, m[x], x + 1);
      CopiedAt(m, buf[..], s, [m[x]], x + 1);
      Extended(m, buf[..], start, s, acc, [m[x]], x + 1);
    }

    /** The end of a word: of the text, a blank, or a newline that is owed. */
    method ReadEnd(start: nat, x: nat, s: nat, ghost acc: string)
      requires Valid() && start <= s <= x < buf.Length && !newline && Holds(buf[..], start, s, acc)
      requires buf[x] == NUL || buf[x] == ' ' || buf[x] == '\t' || buf[x] == '\r' || buf[x] == '\n'
      requires x == start ==> buf[x] != NUL
      modifies this`newline, this`ptr, buf
      ensures Valid() && buf[..start] == old(buf[..start]) && start < ptr
      ensures Finished(ScanText(old(buf[x..]), acc), T_TEXT, start)
    {
      hide ScanText, Settled, Holds;
      ScanFirst(buf[x..], acc);
      Tail(buf[..], x, 1);
      newline := buf[x] == '\n';
      EndText(start, s, if buf[x] == NUL then x else x + 1, acc);
    }

    method ReadQuoted(start: nat, x: nat, s: nat, ghost acc: string)
      returns (more: bool, x': nat, s': nat, kind: Kind, ghost acc': string)
      requires Valid() && start <= s <= x < buf.Length && !newline && Holds(buf[..], start, s, acc) && buf[x] == '"'
      modifies this`ptr, buf
      ensures Valid() && buf[..start] == old(buf[..start])
      ensures more ==>
        && x < x' < buf.Length && start <= s' <= x' && Holds(buf[..], start, s', acc')
        && ScanText(buf[x'..], acc') == ScanText(old(buf[x..]), acc)
      ensures !more ==> start <= x' && start < ptr && Finished(ScanText(old(buf[x..]), acc), kind, start)
    {
      hide ScanText, Settled, QuotedLength, Holds, Copied;
      ghost var m := buf[..];
      x', s' := CopyQuoted(x + 1, s);
      QuotedPiece(m, buf[..], x, x', s, acc);
      Extended(m, buf[..], start, s, acc, m[x + 1..x'], x');
      more, kind, acc' := true, T_TEXT, acc + m[x + 1..x'];
      if buf[x'] == NUL {
        more, ptr, kind := false, x', T_EOF;
        return;
      }
      x' := x' + 1;
    }

    method ReadEscape(start: nat, x: nat, s: nat, ghost acc: string) returns (x': nat, s': nat, ghost acc': string)
      requires Valid() && start <= s <= x && x + 1 < buf.Length && Holds(buf[..], start, s, acc)
      requires buf[x] == '\\' && buf[x + 1] != NUL
      modifies buf
      ensures Valid() && buf[..start] == old(buf[..start])
      ensures x < x' < buf.Length && start <= s' <= x' && Holds(buf[..], start, s', acc')
      ensures ScanText(buf[x'..], acc') == ScanText(old(buf[x..]), acc)
    {
      hide ScanText, Escape, Holds;
      ghost var m := buf[..];
      ScanFirst(m[x..], acc);
      Tail(m, x, 1);
      x', s' := TakeEscape(x + 1, s);
      ghost var e := Escape(m[x + 1..]);
      Tail(m, x, 1 + e.taken);
      acc' := acc + e.out;
      Extended(m, buf[..], start, s, acc, e.out, x');
    }

    method Store(s: nat, c: char)
      requires s < buf.Length
      modifies buf
      ensures buf[..] == old(buf[..])[s := c]
    {
      buf[s] := c;
    }

    /** Ends the word at s and goes on at next. */
    method EndText(start: nat, s: nat, next: nat, ghost acc: string)
      requires Valid() && start <= s <= next < buf.Length && start < next && Holds(buf[..], start, s, acc)
      requires s == next ==> buf[s] == NUL
      modifies this`ptr, buf
      ensures Valid() && ptr == next && buf[..start] == old(buf[..start]) && buf[next..] == old(buf[next..])
      ensures Settled(buf[..], ptr, start, acc)
    {
      ghost var m := buf[..];
      ptr := next;
      Store(s, NUL);
      assert buf[start..s] == m[start..s] && buf[..start] == m[..start] && buf[next..] == m[next..];
    }

    /** A quoted part, up to the closing quote or the end of the text. */
    method CopyQuoted(from: nat, to: nat) returns (x: nat, s: nat)
      requires Valid() && to < from < buf.Length
      modifies buf
      ensures Valid() && from <= x < buf.Length && x - from == QuotedLength(old(buf[from..])) == s - to
      ensures Copied(old(buf[..]), buf[..], to, old(buf[from..x]), x)
      ensures old(buf[x]) == '"' || old(buf[x]) == NUL
    {
      hide QuotedLength, Copied;
      ghost var m := buf[..];
      x, s := from, to;
      CopiedNone(m, to, from);
      while buf[x] != '"' && buf[x] != NUL
        invariant Valid() && from <= x < buf.Length && x - from == s - to
        invariant Copied(m, buf[..], to, m[from..x], x)
        invariant QuotedLength(m[from..]) == x - from + QuotedLength(m[x..])
        decreases buf.Length - x
      {
        CopiedAt(m, buf[..], to, m[from..x], x);
        QuotedStep(m, x);
        ghost var was := buf[..];
        Store(s, buf[x]);
        CopyOne(m, was, buf[..], to, m[from..x], x);
        assert m[from..x] + [m[x]] == m[from..x + 1];
        x, s := x + 1, s + 1;
      }
      CopiedAt(m, buf[..], to, m[from..x], x);
      QuotedStep(m, x);
    }

    /** What follows a backslash. */
    method TakeEscape(from: nat, to: nat) returns (x: nat, s: nat)
      requires Valid() && to < from < buf.Length && buf[from] != NUL
      modifies buf
      ensures Valid()
      ensures var e := Escape(old(buf[from..]));
              x == from + e.taken < buf.Length && s == to + |e.out| && Copied(old(buf[..]), buf[..], to, e.out, x)
    {
      hide Blanks;
      ghost var m, u := buf[..], buf[from..];
      x, s := from, to;
      assert u[0] == buf[from];
      if buf[x] == 'n' {
        Store(s, '\n');
        s := s + 1;
      } else if buf[x] == 'r' {
        Store(s, '\r');
        s := s + 1;
      } else if buf[x] == 't' {
        Store(s, '\t');
        s := s + 1;
      } else if buf[x] == '\\' {
        Store(s, '\\');
        s := s + 1;
      } else if buf[x] == '\r' && buf[x + 1] != '\n' {
        assert u[1] == buf[x + 1];
        x := x + 1;
      } else if buf[x] == '\r' || buf[x] == '\n' {
        assert u[1] == buf[x + 1] && u[1..] == buf[x + 1..];
        x := SkipBlanks(x + 1);
      } else {
        Store(s, buf[x]);
        x, s := x + 1, s + 1;
      }
    }

    method SkipBlanks(from: nat) returns (x: nat)
      requires Valid() && from < buf.Length
      ensures from <= x < buf.Length && x - from == Blanks(buf[from..])
    {
      x := from;
      while buf[x] == ' ' || buf[x] == '\t'
        invariant from <= x < buf.Length && Blanks(buf[from..]) == x - from + Blanks(buf[x..])
        decreases buf.Length - x
      {
        assert buf[x..][1..] == buf[x + 1..];
        x := x + 1;
      }
    }
  }

  /** The words ws are stored at ps, and the lines wss at pss. */
  predicate WordsAt(m: string, ptr: nat, ps: seq<nat>, ws: seq<string>) {
    |ps| == |ws| && forall i :: 0 <= i < |ps| ==> Settled(m, ptr, ps[i], ws[i])
  }

  predicate LinesAt(m: string, ptr: nat, pss: seq<seq<nat>>, wss: seq<seq<string>>) {
    |pss| == |wss| && forall i :: 0 <= i < |pss| ==> WordsAt(m, ptr, pss[i], wss[i])
  }

  lemma StayAt(m: string, ptr: nat, m': string, ptr': nat, ps: seq<nat>, ws: seq<string>)
    requires Advanced(m, ptr, m', ptr') && WordsAt(m, ptr, ps, ws)
    requires m[ptr] == NUL ==> ptr' == ptr
    ensures WordsAt(m', ptr', ps, ws)
  {
    hide Settled, Advanced;
    forall i | 0 <= i < |ps| ensures Settled(m', ptr', ps[i], ws[i]) {
      StaysSettled(m, ptr, m', ptr', ps[i], ws[i]);
    }
  }

  lemma LinesStayAt(m: string, ptr: nat, m': string, ptr': nat, pss: seq<seq<nat>>, wss: seq<seq<string>>)
    requires Advanced(m, ptr, m', ptr') && LinesAt(m, ptr, pss, wss)
    requires m[ptr] == NUL ==> ptr' == ptr
    ensures LinesAt(m', ptr', pss, wss)
  {
    hide WordsAt, Advanced;
    forall i | 0 <= i < |pss| ensures WordsAt(m', ptr', pss[i], wss[i]) {
      StayAt(m, ptr, m', ptr', pss[i], wss[i]);
    }
  }

  lemma NothingAt(m: string, ptr: nat)
    ensures WordsAt(m, ptr, [], []) && LinesAt(m, ptr, [], [])
  {
  }

  lemma OneMore(m: string, ptr: nat, ps: seq<nat>, ws: seq<string>, p: nat, w: string)
    requires WordsAt(m, ptr, ps, ws) && Settled(m, ptr, p, w)
    ensures WordsAt(m, ptr, ps + [p], ws + [w])
  {
    hide Settled;
  }

  lemma LineEnds(m: string, ptr: nat, pss: seq<seq<nat>>, wss: seq<seq<string>>, ps: seq<nat>, ws: seq<string>)
    requires LinesAt(m, ptr, pss, wss) && WordsAt(m, ptr, ps, ws)
    ensures LinesAt(m, ptr, pss + [ps], wss + [ws]) && |ps| == |ws| && WordsAt(m, ptr, [], [])
  {
    hide Settled;
  }

  lemma SameSize(m: string, ptr: nat, ps: seq<nat>, ws: seq<string>)
    requires WordsAt(m, ptr, ps, ws)
    ensures |ps| == |ws|
  {
  }

  /** The cursor stays at the end of the text, and when only an owed newline was taken. */
  lemma CursorMoves(m: string, ptr: nat, newline: bool, m': string, ptr': nat)
    requires ptr < |m| && ptr' <= |m'| == |m| && m'[ptr'..] == (if newline then m[ptr..] else Lex(m[ptr..]).rest)
    ensures m[ptr] == NUL || newline ==> ptr' == ptr
  {
    hide Lex;
    LexFirst(m[ptr..]);
    assert |m'[ptr'..]| == |m'| - ptr' && m[ptr..][0] == m[ptr];
  }

  lemma NextOf(t: string, newline: bool, ws: seq<string>)
    ensures var l := if newline then Lexed(NEWLINE, t, false) else Lex(t);
            Group(Tokens(t, newline), ws) ==
              match l.token
              case EOF => []
              case NEWLINE => (if ws == [] then [] else [ws]) + Group(Tokens(l.rest, l.newline), [])
              case TEXT(w) => Group(Tokens(l.rest, l.newline), if |ws| < MAX_ARGS then ws + [w] else ws)
  {
    hide Lex;
    var l := if newline then Lexed(NEWLINE, t, false) else Lex(t);
    if l.token != EOF {
      assert Tokens(t, newline) == [l.token] + Tokens(l.rest, l.newline);
      assert ([l.token] + Tokens(l.rest, l.newline))[1..] == Tokens(l.rest, l.newline);
    }
  }

  /** The loop of parse_config: the words of each line, as pointers into the text, which later
      tokens leave alone. */
  method ParseConfig(state: ParseState) returns (lines: seq<seq<nat>>)
    requires state.Valid()
    modifies state, state.buf
    ensures state.Valid()
    ensures LinesAt(state.buf[..], state.ptr, lines, Group(Tokens(old(state.buf[state.ptr..]), old(state.newline)), []))
  {
    hide Lex, Tokens, Group, Advanced, Settled, WordsAt, LinesAt;
    ghost var goal := Group(Tokens(state.buf[state.ptr..], state.newline), []);
    ghost var wss, ws: seq<string> := [], [];
    var args: seq<nat>, kind := [], T_TEXT;
    lines := [];
    NothingAt(state.buf[..], state.ptr);
    while kind != T_EOF
      invariant state.Valid()
      invariant LinesAt(state.buf[..], state.ptr, lines, wss) && WordsAt(state.buf[..], state.ptr, args, ws)
      invariant kind != T_EOF ==> wss + Group(Tokens(state.buf[state.ptr..], state.newline), ws) == goal
      invariant kind == T_EOF ==> wss == goal
      decreases kind != T_EOF, state.buf.Length - state.ptr, state.newline
    {
      label Before:
      ghost var m, ptr, l := state.buf[..], state.ptr, state.Next();
      NextOf(m[ptr..], state.newline, ws);
      SameSize(m, ptr, args, ws);
      kind := state.NextToken();
      CursorMoves(m, ptr, old@Before(state.newline), state.buf[..], state.ptr);
      LinesStayAt(m, ptr, state.buf[..], state.ptr, lines, wss);
      StayAt(m, ptr, state.buf[..], state.ptr, args, ws);
      match kind
      case T_EOF =>
        assert wss + [] == wss;
      case T_NEWLINE =>
        if args != [] {
          LineEnds(state.buf[..], state.ptr, lines, wss, args, ws);
          Associate(wss, [ws], Group(Tokens(l.rest, l.newline), []));
          lines, wss := lines + [args], wss + [ws];
          args, ws := [], [];
        }
      case T_TEXT =>
        if |args| < MAX_ARGS {
          OneMore(state.buf[..], state.ptr, args, ws, state.text, l.token.text);
          args, ws := args + [state.text], ws + [l.token.text];
        }
    }
  }

  /** m' is m with data stored at to, as far as the text up to it and from x on goes. */
  predicate Copied(m: string, m': string, to: nat, data: string, x: nat) {
    && to + |data| <= x <= |m| == |m'|
    && m'[..to] == m[..to] && m'[to..to + |data|] == data && m'[x..] == m[x..]
  }

  lemma LexText(t: string)
    requires t != [] && t[0] !in [NUL, ' ', '\t', '\r', '\n', '#']
    ensures Lex(t) == match ScanText(t, "")
                      case Done(w, rest, newline) => Lexed(TEXT(w), rest, newline)
                      case Unterminated(rest) => Lexed(EOF, rest, false)
  {
    hide Lex, ScanText;
    LexFirst(t);
  }

  lemma LexComment(m: string, x: nat, n: nat)
    requires x <= n < |m| && m[x] == '#' && n - x == CommentLength(m[x..])
    ensures Lex(m[x..]) == if m[n] == '\n' then Lexed(NEWLINE, m[n + 1..], false) else Lexed(EOF, m[n..], false)
  {
    hide Lex, CommentLength;
    LexFirst(m[x..]);
    Tail(m, x, n - x);
    Tail(m, x, n - x + 1);
  }

  lemma KeepsFront(m: string, m': string, x: nat, k: nat)
    requires k <= x <= |m| == |m'| && m'[..x] == m[..x]
    ensures m'[..k] == m[..k]
  {
    assert m'[..k] == m'[..x][..k] && m[..k] == m[..x][..k];
  }

  lemma Tail(m: string, x: nat, k: nat)
    requires x + k <= |m|
    ensures m[x..][k..] == m[x + k..] && (k > 0 ==> m[x..][k - 1] == m[x + k - 1])
    ensures x < |m| ==> m[x..][0] == m[x]
    ensures x + k < |m| ==> m[x..][k] == m[x + k]
  {
  }

  lemma CopiedNone(m: string, to: nat, x: nat)
    requires to <= x <= |m|
    ensures Copied(m, m, to, m[x..x], x)
  {
  }

  lemma CopiedAt(m: string, m': string, to: nat, data: string, x: nat)
    requires Copied(m, m', to, data, x) && x < |m|
    ensures m'[x] == m[x] && m'[|m| - 1] == m[|m| - 1]
    ensures m'[x..] == m[x..] && m'[x + 1..] == m[x + 1..]
  {
    assert m'[x..][0] == m[x..][0] && m'[x..][|m| - 1 - x] == m[x..][|m| - 1 - x];
    Tail(m, x, 1);
    Tail(m', x, 1);
  }

  lemma CopiedOne(m: string, s: nat, c: char, x: nat)
    requires s < x <= |m|
    ensures Copied(m, m[s := c], s, [c], x)
  {
  }

  lemma QuotedStep(m: string, x: nat)
    requires x < |m|
    ensures QuotedLength(m[x..]) == if m[x] == '"' || m[x] == NUL then 0 else 1 + QuotedLength(m[x + 1..])
  {
    Tail(m, x, 1);
  }

  /** A quoted part was copied from behind its quote at x up to x'. */
  lemma QuotedPiece(m: string, m': string, x: nat, x': nat, s: nat, acc: string)
    requires x < x' < |m| && m[x] == '"' && x' - (x + 1) == QuotedLength(m[x + 1..]) && s <= x
    requires Copied(m, m', s, m[x + 1..x'], x')
    ensures NUL !in m[x + 1..x'] && m'[x'] == m[x'] && m'[|m| - 1] == m[|m| - 1]
    ensures if m[x'] == NUL then ScanText(m[x..], acc) == Unterminated(m'[x'..])
            else ScanText(m[x..], acc) == ScanText(m'[x' + 1..], acc + m[x + 1..x'])
  {
    hide ScanText, QuotedLength, Copied;
    ScanQuoted(m, x, x', acc);
    CopiedAt(m, m', s, m[x + 1..x'], x');
    NoEnd(m, x + 1, x');
  }

  lemma ScanQuoted(m: string, x: nat, x': nat, acc: string)
    requires x < x' < |m| && m[x] == '"' && x' - (x + 1) == QuotedLength(m[x + 1..])
    ensures ScanText(m[x..], acc) ==
      if m[x'] == NUL then Unterminated(m[x'..]) else ScanText(m[x' + 1..], acc + m[x + 1..x'])
  {
    hide ScanText, QuotedLength;
    var n := x' - (x + 1);
    ScanFirst(m[x..], acc);
    Tail(m, x, 1);
    Tail(m, x, n + 1);
    Tail(m, x, n + 2);
    TailSlice(m, x, n + 1);
  }

  lemma NoEnd(m: string, from: nat, x: nat)
    requires from <= x <= |m| && x - from == QuotedLength(m[from..])
    ensures NUL !in m[from..x]
  {
    forall i | from <= i < x ensures m[i] != NUL {
      assert m[i] == m[from..][i - from];
    }
  }

  lemma TailSlice(m: string, x: nat, k: nat)
    requires 0 < k && x + k <= |m|
    ensures m[x..][1..k] == m[x + 1..x + k]
  {
  }

  lemma CopyOne(m: string, was: string, now: string, to: nat, data: string, x: nat)
    requires x < |m| && Copied(m, was, to, data, x) && now == was[to + |data| := m[x]]
    ensures Copied(m, now, to, data + [m[x]], x + 1)
  {
    assert now[..to] == was[..to];
    assert now[to..to + |data|] == was[to..to + |data|];
    assert now[x + 1..] == was[x..][1..] == m[x..][1..] == m[x + 1..];
  }

  /** The part of the word read so far. */
  predicate Holds(m: string, start: nat, s: nat, acc: string) {
    start <= s <= |m| && m[start..s] == acc && NUL !in acc
  }

  lemma Extended(m: string, m': string, start: nat, s: nat, acc: string, data: string, x: nat)
    requires Holds(m, start, s, acc) && Copied(m, m', s, data, x) && NUL !in data
    ensures Holds(m', start, s + |data|, acc + data) && m'[..start] == m[..start]
  {
    assert m'[start..s] == m'[..s][start..] == m[..s][start..] == m[start..s];
    assert m'[start..s + |data|] == m'[start..s] + m'[s..s + |data|];
    assert m'[..start] == m'[..s][..start] == m[..s][..start] == m[..start];
  }

  /** One step of ScanText. */
  lemma ScanFirst(t: string, acc: string)
    requires t != []
    ensures t[0] == NUL ==> ScanText(t, acc) == Done(acc, t, false)
    ensures IsBlank(t[0]) || t[0] == '\r' ==> ScanText(t, acc) == Done(acc, t[1..], false)
    ensures t[0] == '\n' ==> ScanText(t, acc) == Done(acc, t[1..], true)
    ensures t[0] == '"' ==>
      var n := QuotedLength(t[1..]);
      ScanText(t, acc) == if n + 1 == |t| || t[n + 1] == NUL then Unterminated(t[n + 1..])
                          else ScanText(t[n + 2..], acc + t[1..n + 1])
    ensures t[0] == '\\' ==>
      ScanText(t, acc) == if |t| == 1 || t[1] == NUL then Done(acc, t[1..], false)
                          else ScanText(t[1 + Escape(t[1..]).taken..], acc + Escape(t[1..]).out)
    ensures t[0] !in [NUL, ' ', '\t', '\r', '\n', '"', '\\'] ==> ScanText(t, acc) == ScanText(t[1..], acc + [t[0]])
  {
    hide Escape, QuotedLength;
  }

  /** One step of Lex. */
  lemma LexFirst(t: string)
    requires t != []
    ensures t[0] == NUL ==> Lex(t) == Lexed(EOF, t, false)
    ensures t[0] == '\n' ==> Lex(t) == Lexed(NEWLINE, t[1..], false)
    ensures IsBlank(t[0]) || t[0] == '\r' ==> Lex(t) == Lex(t[1..])
    ensures t[0] == '#' ==>
      var n := CommentLength(t);
      Lex(t) == if n < |t| && t[n] == '\n' then Lexed(NEWLINE, t[n + 1..], false) else Lexed(EOF, t[n..], false)
    ensures t[0] !in [NUL, ' ', '\t', '\r', '\n', '#'] ==>
      Lex(t) == match ScanText(t, "")
                case Done(w, rest, newline) => Lexed(TEXT(w), rest, newline)
                case Unterminated(rest) => Lexed(EOF, rest, false)
  {
    hide ScanText, CommentLength;
  }
}
