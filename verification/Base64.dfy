/** Base64 (section 4 of RFC 4648): the encoder fed piece by piece, the one-shot encoder, the decoder. */
module Base64 {
  import opened Bytes
  import opened Sequences

  const PAD: byte := 61
  const INVALID: byte := 255
  const PADDING: byte := 200

  // ----- the alphabet and groups of three octets

  function Code(v: nat): byte
    requires v < 64
  {
    if v < 26 then v + 65 else if v < 52 then v - 26 + 97 else if v < 62 then v - 52 + 48
    else if v - 62 == 0 then 43 else 47
  }

  /** The decoder's table, indexed by the low seven bits. */
  function FromB64(ch: byte): byte {
    var x := ch % 128;
    if x == 43 then 62 else if x == 47 then 63
    else if 48 <= x <= 57 then x - 48 + 52
    else if x == 61 then PADDING
    else if 65 <= x <= 90 then x - 65
    else if 97 <= x <= 122 then x - 97 + 26
    else INVALID
  }

  lemma CodeRoundTrip(v: nat)
    requires v < 64
    ensures FromB64(Code(v)) == v
  {
  }

  /** The two to four codes for the n octets of a group, its missing octets being zero. */
  function Codes(a: byte, b: byte, c: byte, n: nat): (r: seq<byte>)
    ensures |r| == if n > 2 then 4 else if n > 1 then 3 else 2
  {
    [Code(a / 4), Code(a % 4 * 16 + b / 16)]
    + (if n > 1 then [Code(b % 16 * 4 + c / 64)] else [])
    + (if n > 2 then [Code(c % 64)] else [])
  }

  function Encode(s: seq<byte>): seq<byte> {
    if s == [] then []
    else if |s| == 1 then Codes(s[0], 0, 0, 1) + [PAD, PAD]
    else if |s| == 2 then Codes(s[0], s[1], 0, 2) + [PAD]
    else Codes(s[0], s[1], s[2], 3) + Encode(s[3..])
  }

  lemma {:induction false} EncodeAppend(x: seq<byte>, y: seq<byte>)
    requires |x| % 3 == 0
    ensures Encode(x + y) == Encode(x) + Encode(y)
  {
    if x == [] {
      assert x + y == y;
    } else {
      var codes := Codes(x[0], x[1], x[2], 3);
      assert (x + y)[3..] == x[3..] + y;
      EncodeAppend(x[3..], y);
      assert codes + (Encode(x[3..]) + Encode(y)) == codes + Encode(x[3..]) + Encode(y);
    }
  }

  /** Always whole groups of four, however long s is. */
  lemma {:induction false} EncodeLength(s: seq<byte>)
    ensures |Encode(s)| == (|s| + 2) / 3 * 4
  {
    if |s| >= 3 {
      EncodeLength(s[3..]);
      assert (|s| + 2) / 3 == (|s[3..]| + 2) / 3 + 1;
    }
  }

  // ----- as section 4 of RFC 4648 has it

  const CAPITALS: string := "ABCDEFGHIJKLMNOPQRSTUVWXYZ"
  const LETTERS: string := "abcdefghijklmnopqrstuvwxyz"
  const ALPHABET: string := CAPITALS + LETTERS + "0123456789+/"

  /** The codes are the characters of the alphabet, in its order. */
  lemma CodeIsLetter(v: nat)
    requires v < 64
    ensures |ALPHABET| == 64 && Code(v) == ALPHABET[v] as int
  {
    if v < 26 {
      assert ALPHABET[v] == CAPITALS[v];
    } else if v < 52 {
      assert ALPHABET[v] == LETTERS[v - 26];
    } else {
      assert ALPHABET[v] == "0123456789+/"[v - 52];
    }
  }

  /** The table gives every character of the alphabet its place, and no other octet below 128 one. */
  lemma TableIsInverse(ch: byte, v: nat)
    requires ch < 128 && v < 64
    ensures FromB64(ch) == v <==> ch == ALPHABET[v] as int
    ensures FromB64(ch) == PADDING <==> ch == '=' as int
    ensures FromB64(ch) < 64 || FromB64(ch) == PADDING || FromB64(ch) == INVALID
    ensures FromB64(ch + 128) == FromB64(ch)
  {
    if FromB64(ch) < 64 {
      CodeOfTable(ch);
    }
    CodeIsLetter(v);
    CodeRoundTrip(v);
  }

  lemma CodeOfTable(ch: byte)
    requires ch < 128 && FromB64(ch) < 64
    ensures Code(FromB64(ch)) == ch
  {
  }

  /** Four characters stand for the number of 24 bits that three octets are; the last one or two octets
      are filled up with zero bits and padded to four characters. */
  lemma GroupIsNumber(a: byte, b: byte, c: byte)
    ensures var s := Encode([a, b, c]); |s| == 4 && GroupNumber(s) == ((a as int) * 256 + b) * 256 + c
    ensures Encode([a, b]) == Encode([a, b, 0])[..3] + ['=' as int]
    ensures Encode([a]) == Encode([a, 0, 0])[..2] + ['=' as int, '=' as int]
  {
    hide Code, GroupNumber;
    WholeGroup(a, b, c);
    WholeGroup(a, b, 0);
    WholeGroup(a, 0, 0);
    LettersNumber(a / 4, a % 4 * 16 + b / 16, b % 16 * 4 + c / 64, c % 64);
    Sextets(a, b, c);
  }

  lemma Sextets(a: byte, b: byte, c: byte)
    ensures ((a / 4 * 64 + (a % 4 * 16 + b / 16)) * 64 + (b % 16 * 4 + c / 64)) * 64 + c % 64 == ((a as int) * 256 + b) * 256 + c
  {
    assert a / 4 * 4 + a % 4 == a && b / 16 * 16 + b % 16 == b && c / 64 * 64 + c % 64 == c;
  }

  lemma WholeGroup(a: byte, b: byte, c: byte)
    ensures Encode([a, b, c]) == [Code(a / 4), Code(a % 4 * 16 + b / 16), Code(b % 16 * 4 + c / 64), Code(c % 64)]
  {
    hide Code;
    var s: seq<byte> := [a, b, c];
    assert s[3..] == [];
  }

  /** The place of a character in the alphabet. */
  function Place(ch: byte): (v: nat)
  {
    if ch < 128 && (ch as char) in ALPHABET then PlaceIn(ALPHABET, ch as char) else 0
  }

  function PlaceIn(s: string, c: char): (v: nat)
    requires c in s
    ensures v < |s| && s[v] == c && c !in s[..v]
  {
    if s[0] == c then 0 else 1 + PlaceIn(s[1..], c)
  }

  function GroupNumber(s: seq<byte>): nat
    requires |s| == 4
  {
    ((Place(s[0]) * 64 + Place(s[1])) * 64 + Place(s[2])) * 64 + Place(s[3])
  }

  lemma PlaceOfCode(v: nat)
    requires v < 64
    ensures Place(Code(v)) == v
  {
    hide *;
    PlaceIs(v);
    CodeRoundTrip(v);
    CodeRoundTrip(Place(Code(v)));
  }

  lemma PlaceIs(v: nat)
    requires v < 64
    ensures Place(Code(v)) < 64 && Code(Place(Code(v))) == Code(v)
  {
    hide *;
    CodeIsLetter(v);
    CodeIsAscii(v);
    LetterAt(ALPHABET, v);
    PlaceOfLetter(Code(v));
    CodeIsLetter(Place(Code(v)));
  }

  lemma LetterAt(s: string, v: nat)
    requires v < |s|
    ensures s[v] in s && PlaceIn(s, s[v]) < |s| && s[PlaceIn(s, s[v])] == s[v]
  {
    hide PlaceIn;
  }

  lemma PlaceOfLetter(ch: byte)
    requires ch < 128 && (ch as char) in ALPHABET
    ensures Place(ch) == PlaceIn(ALPHABET, ch as char)
  {
    hide ALPHABET, PlaceIn;
  }

  lemma CodeIsAscii(v: nat)
    requires v < 64
    ensures Code(v) < 128
  {
  }

  lemma LettersNumber(p: nat, q: nat, r: nat, t: nat)
    requires p < 64 && q < 64 && r < 64 && t < 64
    ensures GroupNumber([Code(p), Code(q), Code(r), Code(t)]) == ((p * 64 + q) * 64 + r) * 64 + t
  {
    hide Code, Place;
    PlaceOfCode(p);
    PlaceOfCode(q);
    PlaceOfCode(r);
    PlaceOfCode(t);
  }

  // ----- the decoder

  datatype Decoded = Decoded(data: seq<byte>, consumed: nat)

  /** Up to four characters at the front of s. */
  function DecodeGroup(a: byte, b: byte, c: byte, d: byte): (r: (seq<byte>, bool))
    ensures |r.0| <= 3
  {
    if a == PADDING || b == PADDING then ([], false)
    else
      var x := (a * 4 % 0x100 + b / 16) % 0x100;
      if c == PADDING then ([x], false)
      else
        var y := (b * 16 % 0x100 + c / 4) % 0x100;
        if d == PADDING then ([x, y], false) else ([x, y, (c * 64 % 0x100 + d) % 0x100], true)
  }

  predicate GroupAhead(s: seq<byte>) {
    |s| >= 4 && forall k :: 0 <= k < 4 ==> FromB64(s[k]) != INVALID
  }

  function Decode(s: seq<byte>): Decoded {
    if !GroupAhead(s) then Decoded([], 0)
    else
      var (data, more) := DecodeGroup(FromB64(s[0]), FromB64(s[1]), FromB64(s[2]), FromB64(s[3]));
      if !more then Decoded(data, 4)
      else var r := Decode(s[4..]); Decoded(data + r.data, 4 + r.consumed)
  }

  lemma CodesDecode(a: byte, b: byte, c: byte)
    ensures var (p, q, r, t) := (a / 4, a % 4 * 16 + b / 16, b % 16 * 4 + c / 64, c % 64);
            && DecodeGroup(p, q, r, t) == ([a, b, c], true)
            && (c == 0 ==> DecodeGroup(p, q, r, PADDING) == ([a, b], false))
            && (b == 0 ==> DecodeGroup(p, q, PADDING, PADDING) == ([a], false))
  {
    FirstOctet(a, b);
    MiddleOctet(a, b, c);
    LastOctet(b, c);
  }

  lemma FirstOctet(a: byte, b: byte)
    ensures (a / 4 * 4 % 0x100 + (a % 4 * 16 + b / 16) / 16) % 0x100 == a
  {
    assert (a % 4 * 16 + b / 16) / 16 == a % 4;
  }

  lemma MiddleOctet(a: byte, b: byte, c: byte)
    ensures ((a % 4 * 16 + b / 16) * 16 % 0x100 + (b % 16 * 4 + c / 64) / 4) % 0x100 == b
  {
    HighBitsGo(a % 4, b / 16);
    LowBitsGo(b % 16, c / 64);
  }

  lemma HighBitsGo(u: nat, v: nat)
    requires v < 16
    ensures (u * 16 + v) * 16 % 0x100 == v * 16
  {
    assert (u * 16 + v) * 16 == u * 0x100 + v * 16;
  }

  lemma LowBitsGo(w: nat, x: nat)
    requires x < 4
    ensures (w * 4 + x) / 4 == w
  {
  }

  lemma LastOctet(b: byte, c: byte)
    ensures ((b % 16 * 4 + c / 64) * 64 % 0x100 + c % 64) % 0x100 == c
  {
    assert (b % 16 * 4 + c / 64) * 64 == b % 16 * 0x100 + c / 64 * 64;
  }

  /** The same group, cut short by padding behind its first two or three characters, and not begun by
      padding: bits that are over are dropped. */
  lemma GroupCutShort(p: byte, q: byte, r: byte, t: byte)
    requires p < 64 && q < 64 && r < 64
    ensures DecodeGroup(p, q, PADDING, t) == ([(p as int) * 4 + q / 16], false)
    ensures DecodeGroup(p, q, r, PADDING) == ([(p as int) * 4 + q / 16, q % 16 * 16 + r / 4], false)
    ensures DecodeGroup(PADDING, q, r, t) == ([], false) == DecodeGroup(p, PADDING, r, t)
  {
    FirstWhole(p, q);
    SecondWhole(q, r);
  }

  lemma FirstWhole(p: byte, q: byte)
    requires p < 64 && q < 64
    ensures (p * 4 % 0x100 + q / 16) % 0x100 == (p as int) * 4 + q / 16
  {
  }

  lemma SecondWhole(q: byte, r: byte)
    requires q < 64 && r < 64
    ensures (q * 16 % 0x100 + r / 4) % 0x100 == q % 16 * 16 + r / 4
  {
    HighBitsGo(q / 16, q % 16);
    assert q / 16 * 16 + q % 16 == q;
  }

  /** Decoding stops in front of four characters that are not all there or not all valid. */
  lemma DecodeStops(s: seq<byte>)
    requires |s| < 4 || exists k :: 0 <= k < 4 && FromB64(s[k]) == INVALID
    ensures Decode(s) == Decoded([], 0)
  {
  }

  /** Decoding what was encoded consumes all of it and returns the original octets. */
  lemma {:induction false} RoundTrip(s: seq<byte>)
    ensures Decode(Encode(s)) == Decoded(s, |Encode(s)|)
  {
    hide Codes, DecodeGroup, FromB64;
    if s != [] {
      var n, a := if |s| >= 3 then 3 else |s|, s[0];
      var b, c := if n > 1 then s[1] else 0, if n > 2 then s[2] else 0;
      var codes, e := Codes(a, b, c, n), Encode(s);
      GroupDecodes(a, b, c, n);
      if n == 3 {
        assert e[..4] == codes && e[4..] == Encode(s[3..]);
        RoundTrip(s[3..]);
        assert s == [a, b, c] + s[3..];
      } else {
        assert s == [a, b, c][..n];
      }
    }
  }

  lemma GroupDecodes(a: byte, b: byte, c: byte, n: nat)
    requires 1 <= n <= 3 && (n < 3 ==> c == 0) && (n < 2 ==> b == 0)
    ensures var g := Codes(a, b, c, n) + (if n == 1 then [PAD, PAD] else if n == 2 then [PAD] else []);
            && |g| == 4 && (forall k :: 0 <= k < 4 ==> FromB64(g[k]) != INVALID)
            && DecodeGroup(FromB64(g[0]), FromB64(g[1]), FromB64(g[2]), FromB64(g[3])) == ([a, b, c][..n], n == 3)
  {
    hide FromB64, Code, DecodeGroup;
    CodeRoundTrip(a / 4);
    CodeRoundTrip(a % 4 * 16 + b / 16);
    CodeRoundTrip(b % 16 * 4 + c / 64);
    CodeRoundTrip(c % 64);
    CodesDecode(a, b, c);
    PadDecodes();
    assert [a, b, c][..1] == [a] && [a, b, c][..2] == [a, b] && [a, b, c][..3] == [a, b, c];
  }

  lemma PadDecodes()
    ensures FromB64(PAD) == PADDING
  {
  }

  // ----- the encoder fed piece by piece

  class Context {
    const chunk: array<byte>
    var chunkSize: nat
    var out: seq<byte>     // what b64_putc has been given
    ghost var msg: seq<byte>

    ghost predicate Valid()
      reads this, chunk
    {
      && chunk.Length == 3 && chunkSize == |msg| % 3
      && chunk[..chunkSize] == msg[|msg| - chunkSize..]
      && out == Encode(msg[..|msg| - chunkSize])
    }

    constructor ()
      ensures Valid() && fresh(chunk) && msg == [] && out == []
    {
      chunk := new byte[3];
      chunkSize, out, msg := 0, [], [];
    }

    method EmitChunk()
      requires chunk.Length == 3
      modifies this`out
      ensures out == old(out) + Codes(chunk[0], chunk[1], chunk[2], chunkSize)
    {
      hide Code;
      var a, b, c := chunk[0], chunk[1], chunk[2];
      ghost var was := out;
      out := out + [Code(a / 4)];
      out := out + [Code(a % 4 * 16 + b / 16)];
      if chunkSize > 1 {
        out := out + [Code(b % 16 * 4 + c / 64)];
      }
      if chunkSize > 2 {
        out := out + [Code(c % 64)];
      }
      assert out == was + Codes(a, b, c, chunkSize);
    }

    /** cs_base64_update */
    method Update(data: seq<byte>)
      requires Valid()
      modifies this, chunk
      ensures Valid() && msg == old(msg) + data
    {
      hide Valid;
      ghost var m := msg;
      for i := 0 to |data|
        invariant Valid() && msg == m + data[..i]
      {
        UpdateOne(data[i]);
        assert m + data[..i] + [data[i]] == m + data[..i + 1];
      }
      assert data[..|data|] == data;
    }

    method UpdateOne(x: byte)
      requires Valid()
      modifies this, chunk
      ensures Valid() && msg == old(msg) + [x]
    {
      hide Encode, Codes;
      ghost var m, n := msg, |msg| - chunkSize;
      GroupGrows(m, n, x);
      chunk[chunkSize] := x;
      chunkSize := chunkSize + 1;
      msg := m + [x];
      assert chunk[..chunkSize] == m[n..] + [x];
      if chunkSize == 3 {
        assert [chunk[0], chunk[1], chunk[2]] == chunk[..chunkSize];
        EmitChunk();
        GroupCloses(msg, n);
        chunkSize := 0;
      }
    }

    /** cs_base64_finish: everything given out is the encoding of everything taken in. */
    method Finish()
      requires Valid()
      modifies this`out, chunk
      ensures out == Encode(old(msg))
    {
      hide Encode, Codes;
      ghost var n := |msg| - chunkSize;
      assert msg == msg[..n] + msg[n..];
      EncodeAppend(msg[..n], msg[n..]);
      EncodeTail(msg[n..]);
      if chunkSize > 0 {
        assert chunk[0] == chunk[..chunkSize][0];
        assert chunkSize > 1 ==> chunk[1] == chunk[..chunkSize][1];
        forall k | chunkSize <= k < 3 {
          chunk[k] := 0;
        }
        EmitChunk();
        for i := 0 to 3 - chunkSize
          invariant out == old(out) + Codes(chunk[0], chunk[1], chunk[2], chunkSize) + Pads(i)
          modifies this`out
        {
          out := out + [PAD];
          assert Pads(i) + [PAD] == Pads(i + 1);
        }
      }
    }
  }

  /** One octet more in the open group that starts at n. */
  lemma GroupGrows(m: seq<byte>, n: nat, x: byte)
    requires n <= |m| && |m| - n == |m| % 3
    ensures (m + [x])[..n] == m[..n] && (m + [x])[n..] == m[n..] + [x]
    ensures |m| + 1 - n < 3 ==> (|m| + 1) % 3 == |m| + 1 - n
    ensures |m| + 1 - n == 3 ==> (|m| + 1) % 3 == 0 && n % 3 == 0
  {
    assert n == 3 * (|m| / 3);
  }

  /** A group of three is complete. */
  lemma GroupCloses(m: seq<byte>, n: nat)
    requires |m| == n + 3 && n % 3 == 0
    ensures var g := m[n..];
            Encode(m) == Encode(m[..n]) + Codes(g[0], g[1], g[2], 3) && m[..|m|] == m && m[|m|..] == []
  {
    hide Encode, Codes;
    var x, g := m[..n], m[n..];
    assert x + g == m && |x| == n;
    EncodeAppend(x, g);
    EncodeThree(g);
  }

  function Pads(n: nat): seq<byte> {
    seq(n, _ => PAD)
  }

  lemma EncodeThree(g: seq<byte>)
    requires |g| == 3
    ensures Encode(g) == Codes(g[0], g[1], g[2], 3)
  {
    hide Codes;
    assert Encode(g[3..]) == [];
  }

  lemma EncodeTail(g: seq<byte>)
    requires |g| < 3
    ensures Encode(g) == if g == [] then [] else
              Codes(g[0], if |g| > 1 then g[1] else 0, 0, |g|) + Pads(3 - |g|)
  {
    hide Codes;
    assert Pads(2) == [PAD, PAD] && Pads(1) == [PAD];
  }

  /** However a message is cut into updates, the output is its one-shot encoding. */
  method EncodeParts(parts: seq<seq<byte>>) returns (out: seq<byte>)
    ensures out == Encode(Concat(parts))
  {
    assert parts[..0] == [] && Concat<byte>([]) == [];
    hide *;
    var ctx := new Context();
    for i := 0 to |parts|
      invariant ctx.Valid() && fresh(ctx) && fresh(ctx.chunk) && ctx.msg == Concat(parts[..i])
    {
      assert parts[..i + 1] == parts[..i] + [parts[i]];
      ConcatAppend(parts[..i], parts[i]);
      ctx.Update(parts[i]);
    }
    assert parts[..|parts|] == parts;
    ctx.Finish();
    out := ctx.out;
  }

  // ----- arrays in, arrays out

  /** What is still to be written when the encoder stands at i, which may be past the end. */
  function Remaining(src: seq<byte>, i: nat): seq<byte> {
    if i < |src| then Encode(src[i..]) else Pads(i - |src|)
  }

  function GroupSize(src: seq<byte>, i: nat): nat {
    if i + 2 < |src| then 3 else if i + 1 < |src| then 2 else 1
  }

  function GroupCodes(src: seq<byte>, i: nat): (r: seq<byte>)
    requires i < |src|
    ensures |r| == GroupSize(src, i) + 1
  {
    var n := GroupSize(src, i);
    Codes(src[i], if n > 1 then src[i + 1] else 0, if n > 2 then src[i + 2] else 0, n)
  }

  method StoreGroup(src: seq<byte>, i: nat, dst: array<byte>, j: nat)
    requires i < |src| && j + GroupSize(src, i) + 1 <= dst.Length
    modifies dst
    ensures dst[..j + GroupSize(src, i) + 1] == old(dst[..j]) + GroupCodes(src, i)
  {
    hide Code;
    var a := src[i];
    var b := if i + 1 >= |src| then 0 else src[i + 1];
    var c := if i + 2 >= |src| then 0 else src[i + 2];
    ghost var was := dst[..j];
    var p := Put(dst, j, [Code(a / 4), Code(a % 4 * 16 + b / 16)]);
    if i + 1 < |src| {
      p := Put(dst, p, [Code(b % 16 * 4 + c / 64)]);
    }
    if i + 2 < |src| {
      p := Put(dst, p, [Code(c % 64)]);
    }
    assert dst[..j + GroupSize(src, i) + 1] == was + GroupCodes(src, i);
  }

  /** cs_base64_encode */
  method EncodeInto(src: seq<byte>, dst: array<byte>)
    requires |Encode(src)| < dst.Length
    modifies dst
    ensures dst[..|Encode(src)|] == Encode(src) && dst[|Encode(src)|] == 0
  {
    hide Encode, Remaining, GroupCodes, GroupSize, Pads;
    var i: nat, j: nat := 0, 0;
    ghost var all := Encode(src);
    RemainingStart(src);
    while i < |src|
      invariant j <= |all| && i < |src| + 3 && (i < |src| || |Remaining(src, i)| == i - |src|)
      invariant dst[..j] + Remaining(src, i) == all
      decreases |src| - i
    {
      RemainingStep(src, i);
      Associate(dst[..j], GroupCodes(src, i), Remaining(src, i + 3));
      StoreGroup(src, i, dst, j);
      j, i := j + GroupSize(src, i) + 1, i + 3;
    }
    RemainingEnd(src, i);
    j := PadOut(dst, j, i - |src|);
    dst[j] := 0;
  }

  lemma RemainingStart(src: seq<byte>)
    ensures Remaining(src, 0) == Encode(src) && |Encode(src)| % 4 == 0
    ensures src == [] ==> |Remaining(src, 0)| == 0
    ensures [] + Remaining(src, 0) == Remaining(src, 0)
  {
    EncodeLength(src);
    assert src[0..] == src;
  }

  lemma RemainingEnd(src: seq<byte>, i: nat)
    requires i >= |src|
    ensures Remaining(src, i) == Pads(i - |src|)
    ensures |Encode(src)| % 4 == 0
  {
    EncodeLength(src);
  }

  lemma RemainingStep(src: seq<byte>, i: nat)
    requires i < |src|
    ensures Remaining(src, i) == GroupCodes(src, i) + Remaining(src, i + 3)
    ensures i + 3 >= |src| ==> |Remaining(src, i + 3)| == i + 3 - |src|
  {
    hide Codes;
    var s := src[i..];
    assert Pads(2) == [PAD, PAD] && Pads(1) == [PAD] && Pads(0) == [];
    if |s| > 3 {
      assert s[3..] == src[i + 3..];
    } else if |s| == 3 {
      EncodeThree(s);
    }
  }

  /** Padding up to a multiple of four characters. */
  method PadOut(dst: array<byte>, start: nat, ghost missing: nat) returns (j: nat)
    requires start + missing < dst.Length && missing < 3 && (start + missing) % 4 == 0
    modifies dst
    ensures j == start + missing && dst[..j] == old(dst[..start]) + Pads(missing)
  {
    hide Pads;
    ghost var left, all := missing, dst[..start] + Pads(missing);
    j := start;
    while j % 4 != 0
      invariant j + left == start + missing && left < 3
      invariant dst[..j] + Pads(left) == all
      decreases left
    {
      OnePad(left);
      Associate(dst[..j], [PAD], Pads(left - 1));
      j := Put(dst, j, [PAD]);
      left := left - 1;
    }
    NoPads();
    assert dst[..j] + [] == dst[..j];
  }

  lemma NoPads()
    ensures Pads(0) == []
  {
  }

  lemma OnePad(n: nat)
    requires n > 0
    ensures Pads(n) == [PAD] + Pads(n - 1)
  {
  }

  /** cs_base64_decode: the octets go to dst with a zero behind them; returns what was consumed and
      the number of octets. */
  method DecodeInto(s: seq<byte>, dst: array<byte>) returns (consumed: nat, decLen: nat)
    requires |Decode(s).data| < dst.Length
    modifies dst
    ensures consumed == Decode(s).consumed && decLen == |Decode(s).data|
    ensures dst[..decLen] == Decode(s).data && dst[decLen] == 0
  {
    hide Decode, DecodeGroup, FromB64;
    ghost var all := Decode(s);
    var p: nat, j: nat, more := 0, 0, true;
    assert s[0..] == s;
    while more && |s| - p >= 4 && FromB64(s[p]) != INVALID && FromB64(s[p + 1]) != INVALID
          && FromB64(s[p + 2]) != INVALID && FromB64(s[p + 3]) != INVALID
      invariant p <= |s| && j <= |all.data|
      invariant more ==> var r := Decode(s[p..]); all == Decoded(dst[..j] + r.data, p + r.consumed)
      invariant !more ==> all == Decoded(dst[..j], p)
      decreases more, |s| - p
    {
      DecodeStep(s, p);
      var a, b, c, d := FromB64(s[p]), FromB64(s[p + 1]), FromB64(s[p + 2]), FromB64(s[p + 3]);
      ghost var was := dst[..j];
      var group, go := WriteGroup(a, b, c, d);
      ghost var r := if go then Decode(s[p + 4..]) else Decoded([], 0);
      assert was + (group + r.data) == was + group + r.data;
      j := Put(dst, j, group);
      p, more := p + 4, go;
    }
    if more {
      DecodeEnd(s[p..]);
      assert dst[..j] + [] == dst[..j];
    }
    dst[j] := 0;
    consumed, decLen := p, j;
  }

  /** The stores of one round of the decoder, and whether the loop goes on. */
  method WriteGroup(a: byte, b: byte, c: byte, d: byte) returns (group: seq<byte>, go: bool)
    ensures (group, go) == DecodeGroup(a, b, c, d)
  {
    group, go := [], false;
    if a == PADDING || b == PADDING { return; }
    group := [(a * 4 % 0x100 + b / 16) % 0x100];
    if c == PADDING { return; }
    group := [group[0], (b * 16 % 0x100 + c / 4) % 0x100];
    if d == PADDING { return; }
    group, go := [group[0], group[1], (c * 64 % 0x100 + d) % 0x100], true;
  }

  lemma DecodeStep(s: seq<byte>, p: nat)
    requires p + 4 <= |s| && forall k :: p <= k < p + 4 ==> FromB64(s[k]) != INVALID
    ensures var (data, more) := DecodeGroup(FromB64(s[p]), FromB64(s[p + 1]), FromB64(s[p + 2]), FromB64(s[p + 3]));
            Decode(s[p..]) == if !more then Decoded(data, 4)
                              else var r := Decode(s[p + 4..]); Decoded(data + r.data, 4 + r.consumed)
  {
    hide DecodeGroup, FromB64;
    assert s[p..][4..] == s[p + 4..];
  }

  lemma DecodeEnd(s: seq<byte>)
    requires !GroupAhead(s)
    ensures Decode(s) == Decoded([], 0)
  {
  }
}
