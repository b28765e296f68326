/** Dot segments of a URI path: the in-place normalizer, and the algorithm of section 5.2.4 of
    RFC 3986 that it turns out to compute. */
module UriPath {
  import opened Bytes

  // ----- the standard's remove_dot_segments, with an input and an output buffer

  /** Where the first '/' of s is, or its length. */
  function Cut(s: string): (n: nat)
    ensures n <= |s| && (n < |s| ==> s[n] == '/') && forall k :: 0 <= k < n ==> s[k] != '/'
  {
    if s == "" || s[0] == '/' then 0 else 1 + Cut(s[1..])
  }

  /** s without its last '/' and what follows it; empty if there is none. */
  function RemoveLast(s: string): (r: string)
    ensures |r| <= |s|
  {
    if s == "" then "" else if s[|s| - 1] == '/' then s[..|s| - 1] else RemoveLast(s[..|s| - 1])
  }

  function RemoveDotSegments(input: string, output: string): string
    decreases |input|
  {
    if input == "" then output
    else if "../" <= input then RemoveDotSegments(input[3..], output)
    else if "./" <= input then RemoveDotSegments(input[2..], output)
    else if "/./" <= input then RemoveDotSegments(input[2..], output)
    else if input == "/." then RemoveDotSegments("/", output)
    else if "/../" <= input then RemoveDotSegments(input[3..], RemoveLast(output))
    else if input == "/.." then RemoveDotSegments("/", RemoveLast(output))
    else if input == "." || input == ".." then output
    else
      var n := if input[0] == '/' then 1 + Cut(input[1..]) else Cut(input);
      RemoveDotSegments(input[n..], output + input[..n])
  }

  // ----- the normalizer, on values

  /** The component at the front of s together with the '/' that ends it. */
  function Front(s: string): (n: nat)
    ensures n <= |s| && (s != "" ==> n > 0)
  {
    if Cut(s) < |s| then Cut(s) + 1 else |s|
  }

  function BackToSlash(s: string): (r: string)
    ensures r <= s && (r == "" || r[|r| - 1] == '/')
  {
    if s == "" || s[|s| - 1] == '/' then s else BackToSlash(s[..|s| - 1])
  }

  function Backtrack(out: string): string {
    BackToSlash(if |out| > 1 && out[|out| - 1] == '/' then out[..|out| - 1] else out)
  }

  /** out is what has been written, rest what has not been read. */
  function Run(out: string, rest: string): string
    decreases |rest|
  {
    if rest == "" then out
    else
      var name, n := rest[..Cut(rest)], Front(rest);
      Run(if name == "." then out else if name == ".." then Backtrack(out) else out + rest[..n], rest[n..])
  }

  function Normalize(path: string): string {
    var out := Run("", path);
    if out == "" then "/" else out
  }

  // ----- the normalizer computes what the standard says

  lemma BacktrackRemovesLast(o: string)
    requires o == "" || o[0] == '/'
    ensures Backtrack(o + "/") == RemoveLast(o) + "/"
    ensures RemoveLast(o) == "" || RemoveLast(o)[0] == '/'
  {
    if o != "" {
      assert (o + "/")[..|o|] == o;
      BackToSlashIs(o);
    }
  }

  lemma {:induction false} BackToSlashIs(o: string)
    requires o != "" && o[0] == '/'
    ensures BackToSlash(o) == RemoveLast(o) + "/" && RemoveLast(o) <= o
  {
    if o[|o| - 1] == '/' {
      assert o == o[..|o| - 1] + "/";
    } else {
      BackToSlashIs(o[..|o| - 1]);
    }
  }

  lemma CutIs(s: string, n: nat)
    requires n <= |s| && (n < |s| ==> s[n] == '/') && forall k :: 0 <= k < n ==> s[k] != '/'
    ensures Cut(s) == n
  {
    hide Cut;
    assert Cut(s) < |s| ==> s[Cut(s)] == '/';
  }

  /** The prefix tests of the standard on an input that starts with '/', character by character. */
  lemma Tests(rest: string)
    ensures var i := "/" + rest;
            && !("../" <= i) && !("./" <= i) && i != "." && i != ".."
            && ("/./" <= i <==> |rest| >= 2 && rest[0] == '.' && rest[1] == '/')
            && (i == "/." <==> |rest| == 1 && rest[0] == '.')
            && ("/../" <= i <==> |rest| >= 3 && rest[0] == '.' && rest[1] == '.' && rest[2] == '/')
            && (i == "/.." <==> |rest| == 2 && rest[0] == '.' && rest[1] == '.')
  {
    var i := "/" + rest;
    assert i[0] == '/' && forall k :: 0 <= k < |rest| ==> i[k + 1] == rest[k];
    assert |rest| >= 2 ==> i[1] == rest[0] && i[2] == rest[1];
    assert |rest| >= 3 ==> i[3] == rest[2];
    assert |rest| == 1 && rest[0] == '.' ==> i == "/.";
    assert |rest| == 2 && rest[0] == '.' && rest[1] == '.' ==> i == "/..";
    assert "/./"[1] == '.' && "/./"[2] == '/' && "/."[1] == '.';
    assert "/../"[1] == '.' && "/../"[2] == '.' && "/../"[3] == '/' && "/.."[1] == '.' && "/.."[2] == '.';
  }

  lemma DotStep(rest: string, o: string)
    requires rest != "" && rest[..Cut(rest)] == "."
    ensures RemoveDotSegments("/" + rest, o) == RemoveDotSegments("/" + rest[Front(rest)..], o)
  {
    hide Cut;
    Tests(rest);
    assert rest[0] == rest[..Cut(rest)][0];
    if |rest| > 1 {
      assert ("/" + rest)[2..] == "/" + rest[2..];
    }
  }

  lemma DotDotStep(rest: string, o: string)
    requires rest != "" && rest[..Cut(rest)] == ".."
    ensures RemoveDotSegments("/" + rest, o) == RemoveDotSegments("/" + rest[Front(rest)..], RemoveLast(o))
  {
    hide Cut, RemoveLast;
    Tests(rest);
    assert rest[0] == rest[..Cut(rest)][0] && rest[1] == rest[..Cut(rest)][1];
    if |rest| > 2 {
      assert ("/" + rest)[3..] == "/" + rest[3..];
    }
  }

  lemma DotCut(rest: string)
    requires |rest| >= 1 && rest[0] == '.' && (|rest| == 1 || rest[1] == '/')
    ensures rest[..Cut(rest)] == "."
  {
    CutIs(rest, 1);
  }

  lemma DotDotCut(rest: string)
    requires |rest| >= 2 && rest[0] == '.' && rest[1] == '.' && (|rest| == 2 || rest[2] == '/')
    ensures rest[..Cut(rest)] == ".."
  {
    CutIs(rest, 2);
  }

  lemma PlainStep(rest: string, o: string)
    requires rest[..Cut(rest)] != "." && rest[..Cut(rest)] != ".."
    ensures var c := Cut(rest);
            RemoveDotSegments("/" + rest, o) ==
              if c < |rest| then RemoveDotSegments("/" + rest[c + 1..], o + ("/" + rest[..c])) else o + ("/" + rest)
  {
    hide Cut, RemoveDotSegments;
    if |rest| >= 1 && rest[0] == '.' && (|rest| == 1 || rest[1] == '/') {
      DotCut(rest);
    }
    if |rest| >= 2 && rest[0] == '.' && rest[1] == '.' && (|rest| == 2 || rest[2] == '/') {
      DotDotCut(rest);
    }
    OrdinaryStep(rest, o);
    assert rest[..|rest|] == rest;
  }

  /** The last case of the standard: no prefix test applies. */
  lemma OrdinaryStep(rest: string, o: string)
    requires !(|rest| >= 1 && rest[0] == '.' && (|rest| == 1 || rest[1] == '/'))
    requires !(|rest| >= 2 && rest[0] == '.' && rest[1] == '.' && (|rest| == 2 || rest[2] == '/'))
    ensures var c := Cut(rest);
            RemoveDotSegments("/" + rest, o) ==
              if c < |rest| then RemoveDotSegments("/" + rest[c + 1..], o + ("/" + rest[..c])) else o + ("/" + rest[..c])
  {
    hide Cut, RemoveLast;
    var input, c := "/" + rest, Cut(rest);
    Tests(rest);
    assert input[1..] == rest && input[0] == '/';
    LeadingSlash(rest, c);
    assert RemoveDotSegments(input, o) == RemoveDotSegments(input[1 + c..], o + input[..1 + c]);
  }

  lemma LeadingSlash(rest: string, c: nat)
    requires c <= |rest| && (c < |rest| ==> rest[c] == '/')
    ensures var input := "/" + rest;
            input[..1 + c] == "/" + rest[..c] && input[1 + c..] == if c < |rest| then "/" + rest[c + 1..] else ""
  {
  }

  lemma {:induction false} RunIsStandard(o: string, rest: string)
    requires o == "" || o[0] == '/'
    ensures Run(o + "/", rest) == RemoveDotSegments("/" + rest, o)
    decreases |rest|
  {
    hide RemoveDotSegments, Backtrack, Cut, RemoveLast;
    if rest == "" {
      EndStep(o);
    } else {
      var c, n := Cut(rest), Front(rest);
      var name, next := rest[..c], rest[n..];
      if name == "." {
        DotStep(rest, o);
        RunIsStandard(o, next);
      } else if name == ".." {
        DotDotStep(rest, o);
        BacktrackRemovesLast(o);
        RunIsStandard(RemoveLast(o), next);
      } else {
        PlainStep(rest, o);
        if c < |rest| {
          assert o + "/" + rest[..n] == o + ("/" + name) + "/";
          RunIsStandard(o + ("/" + name), next);
        } else {
          assert rest[..n] == rest && o + "/" + rest == o + ("/" + rest);
        }
      }
    }
  }

  lemma EndStep(o: string)
    ensures Run(o + "/", "") == o + "/" == RemoveDotSegments("/" + "", o)
  {
    assert "/" + "" == "/" && "/"[1..] == "" && "/"[..1] == "/";
  }

  /** For every absolute path. */
  lemma NormalizeIsStandard(path: string)
    requires path != "" && path[0] == '/'
    ensures Normalize(path) == RemoveDotSegments(path, "")
  {
    hide RemoveDotSegments;
    FirstSlash(path);
    RunIsStandard("", path[1..]);
    assert "" + "/" == "/" && "/" + path[1..] == path;
    SlashClean();
    RunClean("/", path[1..]);
  }

  lemma FirstSlash(path: string)
    requires path != "" && path[0] == '/'
    ensures Run("", path) == Run("/", path[1..])
  {
    assert Cut(path) == 0 && path[..1] == "/" && path[..0] == "";
    assert "" + path[..1] == "/";
  }

  // ----- by components

  /** Each component behind a '/'. */
  function Path(cs: seq<string>): string {
    if cs == [] then "" else Path(cs[..|cs| - 1]) + "/" + cs[|cs| - 1]
  }

  function Join(cs: seq<string>): string
    requires cs != []
  {
    if |cs| == 1 then cs[0] else cs[0] + "/" + Join(cs[1..])
  }

  predicate NoSlashes(cs: seq<string>) {
    forall i :: 0 <= i < |cs| ==> '/' !in cs[i]
  }

  /** The directories on the way to the last component of cs, starting from kept: a dot stays, two dots go
      back one if there is one, and a last component of dots names a directory. */
  function Resolve(kept: seq<string>, cs: seq<string>): seq<string>
    requires cs != []
    decreases |cs|
  {
    var next := if cs[0] == "." then kept
                else if cs[0] == ".." then if kept == [] then [] else kept[..|kept| - 1]
                else kept + [cs[0]];
    if |cs| > 1 then Resolve(next, cs[1..])
    else if cs[0] == "." || cs[0] == ".." then next + [""]
    else next
  }

  lemma PathAppend(cs: seq<string>, c: string)
    ensures Path(cs + [c]) == Path(cs) + "/" + c
  {
    assert (cs + [c])[..|cs|] == cs;
  }

  lemma {:induction false} PathIs(cs: seq<string>)
    requires cs != []
    ensures Path(cs) == "/" + Join(cs)
  {
    if |cs| == 1 {
      assert cs == [] + [cs[0]];
      PathAppend([], cs[0]);
    } else {
      PathPrepend(cs[0], cs[1..]);
      PathIs(cs[1..]);
      assert [cs[0]] + cs[1..] == cs;
      assert "/" + cs[0] + ("/" + Join(cs[1..])) == "/" + (cs[0] + "/" + Join(cs[1..]));
    }
  }

  lemma {:induction false} PathPrepend(c: string, cs: seq<string>)
    ensures Path([c] + cs) == "/" + c + Path(cs)
  {
    if cs == [] {
      assert [c] + cs == [] + [c];
      PathAppend([], c);
    } else {
      var init, last := cs[..|cs| - 1], cs[|cs| - 1];
      assert [c] + cs == ([c] + init) + [last] && cs == init + [last];
      PathAppend([c] + init, last);
      PathAppend(init, last);
      PathPrepend(c, init);
      assert "/" + c + Path(init) + "/" + last == "/" + c + (Path(init) + "/" + last);
    }
  }

  lemma {:induction false} RemoveLastIs(o: string, c: string)
    requires '/' !in c
    ensures RemoveLast(o + "/" + c) == o
  {
    var s := o + "/" + c;
    if c == "" {
      assert s == o + "/";
    } else {
      assert s[..|s| - 1] == o + "/" + c[..|c| - 1] && s[|s| - 1] == c[|c| - 1];
      RemoveLastIs(o, c[..|c| - 1]);
    }
  }

  lemma GoBack(kept: seq<string>)
    requires NoSlashes(kept)
    ensures RemoveLast(Path(kept)) == Path(if kept == [] then [] else kept[..|kept| - 1])
  {
    if kept != [] {
      RemoveLastIs(Path(kept[..|kept| - 1]), kept[|kept| - 1]);
    }
  }

  lemma JoinCut(cs: seq<string>)
    requires cs != [] && NoSlashes(cs)
    ensures var rest := Join(cs);
            Cut(rest) == |cs[0]| && rest[..Cut(rest)] == cs[0] && (Cut(rest) < |rest| <==> |cs| > 1)
            && if |cs| == 1 then rest[Front(rest)..] == "" else rest[Front(rest)..] == Join(cs[1..])
  {
    hide Cut;
    var rest, c := Join(cs), cs[0];
    assert forall k :: 0 <= k < |c| ==> c[k] != '/';
    CutIs(rest, |c|);
  }

  lemma {:induction false} ResolveStandard(kept: seq<string>, cs: seq<string>)
    requires cs != [] && NoSlashes(kept) && NoSlashes(cs)
    ensures RemoveDotSegments("/" + Join(cs), Path(kept)) == Path(Resolve(kept, cs))
    decreases |cs|
  {
    hide RemoveDotSegments, Cut, Path, RemoveLast;
    var rest, c := Join(cs), cs[0];
    JoinCut(cs);
    GoBack(kept);
    PathAppend(kept, c);
    if c == "." {
      DotStep(rest, Path(kept));
    } else if c == ".." {
      DotDotStep(rest, Path(kept));
    } else {
      PlainStep(rest, Path(kept));
      assert Path(kept) + ("/" + c) == Path(kept) + "/" + c;
    }
    var next := if c == "." then kept else if c == ".." then if kept == [] then [] else kept[..|kept| - 1] else kept + [c];
    if |cs| > 1 {
      ResolveStandard(next, cs[1..]);
    } else {
      EndStep(Path(next));
      PathAppend(next, "");
      assert rest == c;
    }
  }

  /** The normalized path leads to where the components lead, one after the other, from the root. */
  lemma NormalizeResolves(cs: seq<string>)
    requires cs != [] && NoSlashes(cs)
    ensures Normalize(Path(cs)) == Path(Resolve([], cs))
  {
    hide RemoveDotSegments, Resolve, Normalize, Join;
    PathIs(cs);
    NormalizeIsStandard(Path(cs));
    ResolveStandard([], cs);
  }

  /** And every absolute path is a path of components. */
  lemma {:induction false} HasComponents(rest: string) returns (cs: seq<string>)
    ensures cs != [] && NoSlashes(cs) && Path(cs) == "/" + rest
  {
    var n := Cut(rest);
    if n == |rest| {
      cs := [rest];
    } else {
      var tail := HasComponents(rest[n + 1..]);
      cs := [rest[..n]] + tail;
      PathPrepend(rest[..n], tail);
      assert rest == rest[..n] + "/" + rest[n + 1..];
    }
    PathIs(cs);
  }

  // ----- no dot segment survives

  predicate Clean(s: string)
    decreases |s|
  {
    s == "" || (s[..Cut(s)] != "." && s[..Cut(s)] != ".." && Clean(s[Front(s)..]))
  }

  predicate Closed(s: string) {
    s == "" || s[|s| - 1] == '/'
  }

  lemma CutAppend(x: string, y: string)
    requires Cut(x) < |x|
    ensures Cut(x + y) == Cut(x)
  {
    if x[0] != '/' {
      assert (x + y)[1..] == x[1..] + y;
      CutAppend(x[1..], y);
    }
  }

  lemma {:induction false} CleanSplit(x: string, y: string)
    requires Closed(x)
    ensures Clean(x + y) <==> Clean(x) && Clean(y)
    decreases |x|
  {
    if x == "" {
      assert x + y == y;
    } else {
      var n := Front(x);
      assert Cut(x) < |x| by {
        assert x[|x| - 1] == '/';
      }
      CutAppend(x, y);
      assert (x + y)[n..] == x[n..] + y;
      assert (x + y)[..Cut(x)] == x[..Cut(x)];
      CleanSplit(x[n..], y);
    }
  }

  lemma BacktrackClean(out: string)
    requires Clean(out) && Closed(out) && out != "" && out[0] == '/'
    ensures Clean(Backtrack(out)) && Closed(Backtrack(out)) && Backtrack(out) != "" && Backtrack(out)[0] == '/'
  {
    hide Clean, Backtrack, RemoveLast;
    var o, b := out[..|out| - 1], Backtrack(out);
    assert o + "/" == out;
    assert o == "" || o[0] == out[0];
    BacktrackRemovesLast(o);
    BacktrackIsPrefix(out);
    assert b + out[|b|..] == out;
    CleanSplit(b, out[|b|..]);
  }

  lemma BacktrackIsPrefix(out: string)
    ensures Backtrack(out) <= out
  {
  }

  lemma {:induction false} RunClean(out: string, rest: string)
    requires Clean(out) && Closed(out) && out != "" && out[0] == '/'
    ensures var r := Run(out, rest); Clean(r) && r != "" && r[0] == '/'
    decreases |rest|
  {
    if rest != "" {
      var name, n := rest[..Cut(rest)], Front(rest);
      if name == "." {
        RunClean(out, rest[n..]);
      } else if name == ".." {
        BacktrackClean(out);
        RunClean(Backtrack(out), rest[n..]);
      } else {
        FrontClean(rest);
        CleanSplit(out, rest[..n]);
        if n < |rest| {
          RunClean(out + rest[..n], rest[n..]);
        } else if Cut(rest) < |rest| {
          RunClean(out + rest[..n], rest[n..]);
        }
      }
    }
  }

  lemma FrontClean(rest: string)
    requires rest != "" && rest[..Cut(rest)] != "." && rest[..Cut(rest)] != ".."
    ensures Clean(rest[..Front(rest)]) && (Cut(rest) < |rest| ==> Closed(rest[..Front(rest)]))
  {
    hide Cut, Clean;
    var f := rest[..Front(rest)];
    CutOfFront(rest);
    assert f[..Cut(rest)] == rest[..Cut(rest)];
    CleanOne(f);
  }

  /** A single component. */
  lemma CleanOne(f: string)
    requires Front(f) == |f| && f[..Cut(f)] != "." && f[..Cut(f)] != ".."
    ensures Clean(f)
  {
    hide Cut;
    assert f[|f|..] == "";
  }

  lemma CutOfFront(s: string)
    ensures Cut(s[..Front(s)]) == Cut(s)
  {
    hide Cut;
    var f := s[..Front(s)];
    assert forall k :: 0 <= k < |f| ==> f[k] == s[k];
  }

  lemma {:induction false} RunOnClean(out: string, rest: string)
    requires Clean(rest)
    ensures Run(out, rest) == out + rest
    decreases |rest|
  {
    if rest != "" {
      var n := Front(rest);
      RunOnClean(out + rest[..n], rest[n..]);
      assert out + rest[..n] + rest[n..] == out + rest;
    }
  }

  /** The result starts with '/', has no "." or ".." segment, and normalizing it changes nothing. */
  lemma NormalizeClean(path: string)
    requires path != "" && path[0] == '/'
    ensures var r := Normalize(path);
            r != "" && r[0] == '/' && Clean(r) && Normalize(r) == r
  {
    FirstSlash(path);
    SlashClean();
    RunClean("/", path[1..]);
    RunOnClean("", Normalize(path));
    assert "" + Normalize(path) == Normalize(path);
  }

  lemma SlashClean()
    ensures Clean("/")
  {
    assert Cut("/") == 0 && "/"[Front("/")..] == "";
  }

  // ----- in place

  /** parse_uri_component over a[s..end) with separator '/': where the next component starts. */
  method ParseComponent(a: array<char>, s: nat, end: nat) returns (len: nat, next: nat)
    requires s <= end <= a.Length
    ensures len == Cut(a[s..end]) && next == s + Front(a[s..end])
  {
    hide Cut;
    var p := s;
    while p < end && a[p] != '/'
      invariant s <= p <= end && forall k :: s <= k < p ==> a[k] != '/'
    {
      p := p + 1;
    }
    CutIs(a[s..end], p - s);
    len := p - s;
    next := if p < end then p + 1 else p;
  }

  /** The two backtracking steps: from d to just after the previous slash. */
  method BacktrackTo(a: array<char>, from: nat) returns (d: nat)
    requires from <= a.Length
    ensures d <= from && a[..d] == Backtrack(a[..from])
  {
    hide BackToSlash;
    d := from;
    if d > 1 && a[d - 1] == '/' {
      d := d - 1;
      assert a[..from][..d] == a[..d];
    }
    BacktrackStarts(a[..from]);
    while d > 0 && a[d - 1] != '/'
      invariant d <= from && BackToSlash(a[..d]) == Backtrack(a[..from])
    {
      BackOne(a[..d]);
      assert a[..d][..d - 1] == a[..d - 1];
      d := d - 1;
    }
    BackOne(a[..d]);
  }

  lemma BacktrackStarts(s: string)
    ensures Backtrack(s) == BackToSlash(if |s| > 1 && s[|s| - 1] == '/' then s[..|s| - 1] else s)
  {
  }

  lemma BackOne(s: string)
    ensures BackToSlash(s) == if s == "" || s[|s| - 1] == '/' then s else BackToSlash(s[..|s| - 1])
  {
  }

  /** One component: dropped, backtracked over, or moved down behind what was written. */
  method TakeComponent(a: array<char>, from: nat, s: nat, len: nat) returns (d: nat, next: nat)
    requires from <= s < len <= a.Length
    modifies a
    ensures d <= next && s < next <= len && a[len..] == old(a[len..])
    ensures Run(a[..d], a[next..len]) == Run(old(a[..from]), old(a[s..len]))
  {
    hide Run, Backtrack, Cut, Placed;
    ghost var m := a[..];
    var n;
    d := from;
    n, next := ParseComponent(a, s, len);
    RunStep(m[..d], m[s..len]);
    Components(m, s, s + n, next, len);
    if a[s..s + n] == "." {
      // dropped
    } else if a[s..s + n] == ".." {
      d := BacktrackTo(a, d);
    } else {
      MoveWithin(a, d, s, next - s);
      Appended(m, d, s, next, len);
      d := d + (next - s);
    }
  }

  lemma Components(m: string, s: nat, end: nat, next: nat, len: nat)
    requires s <= end <= next <= len <= |m|
    ensures m[s..len][..end - s] == m[s..end] && m[s..len][..next - s] == m[s..next] && m[s..len][next - s..] == m[next..len]
  {
  }

  /** mg_normalize_uri_path with out and in the same buffer: the write cursor d stays behind the read
      cursor s, so nothing is overwritten before it has been read. */
  method NormalizeUriPath(a: array<char>, len: nat) returns (ok: bool, outLen: nat)
    requires len <= a.Length
    modifies a
    ensures ok <==> len > 0 && old(a[..])[0] == '/'
    ensures !ok ==> outLen == 0 && a[..] == old(a[..])
    ensures ok ==> outLen <= len && a[..outLen] == Normalize(old(a[..len]))
    ensures a[len..] == old(a[len..])
  {
    hide Run, Backtrack, Cut, Placed;
    if len == 0 || a[0] != '/' {
      return false, 0;
    }
    ghost var path, behind := a[..len], a[len..];
    ghost var out := Run("", path);
    var s, d: nat := 0, 0;
    assert a[..0] == "" && a[0..len] == path;
    while s < len
      invariant d <= s <= len && a[len..] == behind
      invariant Run(a[..d], a[s..len]) == out
    {
      d, s := TakeComponent(a, d, s, len);
    }
    RunEnd(a[..d]);
    assert a[len..len] == "";
    if d == 0 {
      ghost var was := a[..];
      a[d] := '/';
      d := d + 1;
      assert a[..d] == "/" && a[len..] == was[len..];
    }
    ok, outLen := true, d;
  }

  lemma RunStep(out: string, rest: string)
    requires rest != ""
    ensures var name, n := rest[..Cut(rest)], Front(rest);
            Run(out, rest) ==
              Run(if name == "." then out else if name == ".." then Backtrack(out) else out + rest[..n], rest[n..])
  {
  }

  lemma RunEnd(out: string)
    ensures Run(out, "") == out
  {
  }

  lemma Appended(m: string, d: nat, s: nat, next: nat, len: nat)
    requires d <= s < next <= len <= |m|
    ensures var r := Placed(m, d, m[s..next]);
            r[..d + (next - s)] == m[..d] + m[s..next] && r[next..len] == m[next..len] && r[len..] == m[len..]
  {
    hide Placed;
    var data := m[s..next];
    PlacedOutside(m, d, data, 0, d);
    PlacedInside(m, d, data);
    PlacedOutside(m, d, data, next, len);
    PlacedOutside(m, d, data, len, |m|);
    var r := Placed(m, d, data);
    assert r[..d + |data|] == r[0..d] + r[d..d + |data|];
    assert r[len..] == r[len..|m|] && m[len..] == m[len..|m|];
  }
}
