/** HTTP chunked transfer coding (section 4.1 of RFC 7230): the sender, the chunk scanner,
    and the reassembly that collapses chunk data in place as bytes arrive. */
module Chunked {
  import opened Bytes
  import opened Sequences
  import opened MbufModel

  const CR: byte := 13
  const LF: byte := 10
  const CRLF: seq<byte> := [13, 10]

  // ----- what a run of raw bytes means

  predicate IsHex(c: byte) {
    48 <= c <= 57 || 65 <= c <= 70 || 97 <= c <= 102
  }

  function HexDigit(c: byte): (d: nat)
    requires IsHex(c)
    ensures d < 16
  {
    if c <= 57 then c - 48 else if c <= 70 then c - 55 else c - 87
  }

  /** How many hexadecimal digits s starts with. */
  function HexRun(s: seq<byte>): (n: nat)
    ensures n <= |s| && (forall k :: 0 <= k < n ==> IsHex(s[k])) && (n < |s| ==> !IsHex(s[n]))
  {
    if s != [] && IsHex(s[0]) then 1 + HexRun(s[1..]) else 0
  }

  function HexValue(s: seq<byte>): nat
    requires forall k :: 0 <= k < |s| ==> IsHex(s[k])
  {
    if s == [] then 0 else HexValue(s[..|s| - 1]) * 16 + HexDigit(s[|s| - 1])
  }

  datatype Scan =
    | NoChunk                           // not a chunk, or not all of it has arrived
    | TooBig                            // size_t cannot hold the offsets this size leads to
    | Chunk(start: nat, dataLen: nat)   // data at [start, start + dataLen), CRLF after it

  function ScanChunk(s: seq<byte>): (r: Scan)
    ensures r.Chunk? ==> 3 <= r.start && r.start + r.dataLen + 2 <= |s|
  {
    var i := HexRun(s);
    if i == 0 || i + 2 > |s| || s[i] != CR || s[i + 1] != LF then NoChunk
    else
      var n := HexValue(s[..i]);
      var j := i + 2 + n;
      if j + 2 >= SIZE_LIMIT then TooBig
      else if j + 2 > |s| || s[j] != CR || s[j + 1] != LF then NoChunk
      else Chunk(i + 2, n)
  }

  datatype Reassembly = Reassembly(body: seq<byte>, rest: seq<byte>, chunks: nat, done: bool)

  /** All complete chunks at the front of raw, up to and including a zero chunk. */
  function Reassemble(raw: seq<byte>): (r: Reassembly)
    ensures r.chunks == 0 ==> r == Reassembly([], raw, 0, false)
  {
    match ScanChunk(raw)
    case NoChunk => Reassembly([], raw, 0, false)
    case TooBig => Reassembly([], raw, 0, false)
    case Chunk(start, n) =>
      if n == 0 then Reassembly([], raw[start + 2..], 1, true)
      else
        var r := Reassemble(raw[start + n + 2..]);
        Reassembly(raw[start..start + n] + r.body, r.rest, r.chunks + 1, r.done)
  }

  /** No chunk that the traversal of raw reaches has a size that overflows size_t. */
  predicate Sized(raw: seq<byte>) {
    match ScanChunk(raw)
    case NoChunk => true
    case TooBig => false
    case Chunk(start, n) => n == 0 || Sized(raw[start + n + 2..])
  }

  // ----- stability: more bytes never change a chunk already seen

  lemma HexRunAppend(s: seq<byte>, t: seq<byte>)
    requires HexRun(s) < |s|
    ensures HexRun(s + t) == HexRun(s)
  {
    if IsHex(s[0]) {
      assert (s + t)[1..] == s[1..] + t;
      HexRunAppend(s[1..], t);
    }
  }

  lemma ScanStable(s: seq<byte>, t: seq<byte>)
    ensures ScanChunk(s) != NoChunk ==> ScanChunk(s + t) == ScanChunk(s)
  {
    var i := HexRun(s);
    if i < |s| {
      HexRunAppend(s, t);
      assert (s + t)[..i] == s[..i];
    }
  }

  /** One step of the traversal, seen from outside. */
  lemma ReassembleStep(data: seq<byte>, tail: seq<byte>, raw: seq<byte>)
    requires var c := ScanChunk(raw);
             c.Chunk? && c.dataLen != 0 && data == raw[c.start..c.start + c.dataLen]
             && tail == raw[c.start + c.dataLen + 2..]
    ensures var r := Reassemble(tail);
            Reassemble(raw) == Reassembly(data + r.body, r.rest, r.chunks + 1, r.done)
    ensures Sized(raw) == Sized(tail) && |tail| < |raw|
  {
    hide ScanChunk;
  }

  lemma ReassembleStopped(raw: seq<byte>)
    ensures !ScanChunk(raw).Chunk? ==> Reassemble(raw) == Reassembly([], raw, 0, false)
    ensures ScanChunk(raw) == NoChunk ==> Sized(raw)
  {
    hide ScanChunk;
  }

  lemma ReassembleStop(raw: seq<byte>)
    requires var c := ScanChunk(raw); !(c.Chunk? && c.dataLen != 0)
    requires !Reassemble(raw).done
    ensures Reassemble(raw) == Reassembly([], raw, 0, false) && Sized(raw) == !ScanChunk(raw).TooBig?
  {
    hide ScanChunk;
  }

  /** Reassembling x and then, with what is left of it, y, is reassembling both at once. */
  lemma {:induction false} ReassembleAppend(x: seq<byte>, y: seq<byte>)
    requires !Reassemble(x).done
    ensures var first := Reassemble(x);
            var next := Reassemble(first.rest + y);
            Reassemble(x + y) ==
              Reassembly(first.body + next.body, next.rest, first.chunks + next.chunks, next.done)
    ensures Sized(x + y) ==> Sized(x) && Sized(Reassemble(x).rest + y)
    decreases |x|
  {
    hide ScanChunk, Reassemble, Sized;
    var c := ScanChunk(x);
    ScanStable(x, y);
    if c.Chunk? && c.dataLen != 0 {
      var data, tail := x[c.start..c.start + c.dataLen], x[c.start + c.dataLen + 2..];
      assert (x + y)[c.start + c.dataLen + 2..] == tail + y;
      assert (x + y)[c.start..c.start + c.dataLen] == data;
      ReassembleStep(data, tail, x);
      ReassembleStep(data, tail + y, x + y);
      ReassembleAppend(tail, y);
      var next := Reassemble(Reassemble(tail).rest + y);
      assert data + (Reassemble(tail).body + next.body) == data + Reassemble(tail).body + next.body;
    } else {
      ReassembleStop(x);
      TooBigIsNotSized(x + y);
      assert [] + Reassemble(x + y).body == Reassemble(x + y).body;
    }
  }

  lemma TooBigIsNotSized(raw: seq<byte>)
    ensures ScanChunk(raw).TooBig? ==> !Sized(raw)
  {
    hide ScanChunk;
  }

  // ----- a whole connection, as a value

  /** gone: bytes the handler asked to delete; body: reassembled and kept; rest: not parsed yet. */
  datatype Session = Session(gone: seq<byte>, body: seq<byte>, rest: seq<byte>)

  datatype Arrival = Arrival(data: seq<byte>, deleteChunk: bool)

  /** The session once the unparsed bytes have been reassembled to r. */
  function Settled(s: Session, r: Reassembly, deleteChunk: bool): Session {
    if r.chunks == 0 then s.(rest := r.rest)
    else if deleteChunk then Session(s.gone + (s.body + r.body), [], r.rest)
    else Session(s.gone, s.body + r.body, r.rest)
  }

  lemma SettledIs(s: Session, r: Reassembly, deleteChunk: bool)
    ensures var whole := s.body + r.body;
            Settled(s, r, deleteChunk) ==
              if r.chunks == 0 then Session(s.gone, s.body, r.rest)
              else if deleteChunk then Session(s.gone + whole, [], r.rest)
              else Session(s.gone, whole, r.rest)
    ensures s.body + [] == s.body
  {
  }

  function Arrive(s: Session, a: Arrival): Session {
    Settled(s, Reassemble(s.rest + a.data), a.deleteChunk)
  }

  function Run(arrivals: seq<Arrival>): Session {
    if arrivals == [] then Session([], [], [])
    else Arrive(Run(arrivals[..|arrivals| - 1]), arrivals[|arrivals| - 1])
  }

  function Received(arrivals: seq<Arrival>): seq<byte> {
    if arrivals == [] then []
    else Received(arrivals[..|arrivals| - 1]) + arrivals[|arrivals| - 1].data
  }

  /** However a stream is cut into arrivals, and whatever the handler deletes on the way, the
      bytes deleted and kept are the chunk data of the stream received so far, in order, and
      what is left over is exactly its unparsed end. */
  lemma {:induction false} SplitInvariance(arrivals: seq<Arrival>)
    requires arrivals != [] ==> !Reassemble(Received(arrivals[..|arrivals| - 1])).done
    ensures var s, whole := Run(arrivals), Reassemble(Received(arrivals));
            s.gone + s.body == whole.body && s.rest == whole.rest
  {
    hide ScanChunk, Reassemble, Sized;
    if arrivals == [] {
      ReassembleStopped([]);
    } else {
      var before, last := arrivals[..|arrivals| - 1], arrivals[|arrivals| - 1];
      var earlier := Received(before);
      ReassembleAppend(earlier, last.data);
      if before != [] && Reassemble(Received(before[..|before| - 1])).done {
        var front := before[..|before| - 1];
        DoneStays(Received(front), before[|before| - 1].data);
      }
      SplitInvariance(before);
      var s, r := Run(before), Reassemble(Run(before).rest + last.data);
      assert s.gone + (s.body + r.body) == s.gone + s.body + r.body;
    }
  }

  /** What a pass makes of a stream stops at the zero chunk: more octets only lengthen the rest. */
  lemma {:induction false} DoneStays(x: seq<byte>, y: seq<byte>)
    requires Reassemble(x).done
    ensures Reassemble(x + y).done && Reassemble(x + y).body == Reassemble(x).body
    ensures Reassemble(x + y).rest == Reassemble(x).rest + y
    decreases |x|
  {
    hide ScanChunk, Reassemble, Sized;
    ScanStable(x, y);
    ReassembleStopped(x);
    var c := ScanChunk(x);
    assert c.Chunk?;
    var data, tail := x[c.start..c.start + c.dataLen], x[c.start + c.dataLen + 2..];
    if c.dataLen == 0 {
      ReassembleZero(x);
      ReassembleZero(x + y);
      assert (x + y)[c.start + 2..] == x[c.start + 2..] + y;
    } else {
      assert (x + y)[c.start + c.dataLen + 2..] == tail + y;
      assert (x + y)[c.start..c.start + c.dataLen] == data;
      ReassembleStep(data, tail, x);
      ReassembleStep(data, tail + y, x + y);
      DoneStays(tail, y);
    }
  }

  lemma OneChunk(data: seq<byte>)
    requires data != [] && Addressable(data)
    ensures Reassemble(EncodeChunk(data)) == Reassembly(data, [], 1, false)
  {
    hide ScanChunk, EncodeChunk, Reassemble;
    var p: seq<byte> := [];
    assert EncodeChunks([data]) == EncodeChunk(data) + EncodeChunks([data][1..]) == EncodeChunk(data) + [];
    assert EncodeChunks([data]) + p == EncodeChunk(data) == EncodeChunk(data) + [];
    EncodeNotEmpty(data);
    ReassembleEncoded([data], data, p);
    assert Concat([data]) == data + Concat([data][1..]) == data;
  }

  lemma EncodeNotEmpty(data: seq<byte>)
    ensures |EncodeChunk(data)| > 0 && [] < EncodeChunk(data)
  {
  }

  // ----- the sender

  function HexChar(d: nat): (c: byte)
    requires d < 16
    ensures IsHex(c) && HexDigit(c) == d
  {
    if d < 10 then 48 + d else 55 + d
  }

  /** n printed with %lX. */
  function HexText(n: nat): (s: seq<byte>)
    ensures s != [] && (forall k :: 0 <= k < |s| ==> IsHex(s[k]))
    ensures HexValue(s) == n
  {
    if n < 16 then
      assert HexValue([HexChar(n)]) == HexValue([HexChar(n)][..0]) * 16 + n;
      [HexChar(n)]
    else
      var s := HexText(n / 16) + [HexChar(n % 16)];
      assert s[..|s| - 1] == HexText(n / 16);
      s
  }

  function EncodeChunk(data: seq<byte>): seq<byte> {
    HexText(|data|) + CRLF + data + CRLF
  }

  function EncodeChunks(parts: seq<seq<byte>>): seq<byte> {
    if parts == [] then [] else EncodeChunk(parts[0]) + EncodeChunks(parts[1..])
  }

  /** The encoding of data is within what size_t can address. */
  predicate Addressable(data: seq<byte>) {
    |EncodeChunk(data)| < SIZE_LIMIT
  }

  method SendChunk(out: Mbuf, data: seq<byte>)
    requires out.Valid()
    modifies out, out.buf
    ensures out.Valid() && (out.buf == old(out.buf) || fresh(out.buf))
    ensures out.Contents() == old(out.Contents()) + EncodeChunk(data)
  {
    ghost var was := out.Contents();
    out.Append(HexText(|data|) + CRLF);
    out.Append(data);
    out.Append(CRLF);
    assert out.Contents() == was + EncodeChunk(data);
  }

  lemma HexRunExact(digits: seq<byte>, t: seq<byte>)
    requires forall k :: 0 <= k < |digits| ==> IsHex(digits[k])
    requires t != [] && !IsHex(t[0])
    ensures HexRun(digits + t) == |digits|
  {
    if digits != [] {
      assert (digits + t)[1..] == digits[1..] + t;
      HexRunExact(digits[1..], t);
    }
  }

  lemma ScanEncoded(data: seq<byte>, t: seq<byte>)
    requires Addressable(data)
    ensures ScanChunk(EncodeChunk(data) + t) == Chunk(|HexText(|data|)| + 2, |data|)
  {
    var h := HexText(|data|);
    var s := EncodeChunk(data) + t;
    assert s == h + (CRLF + data + CRLF + t);
    HexRunExact(h, CRLF + data + CRLF + t);
    assert s[..|h|] == h;
  }

  /** A proper prefix of an encoded chunk is never taken for a chunk. */
  lemma ScanPartial(data: seq<byte>, p: seq<byte>)
    requires Addressable(data) && p < EncodeChunk(data)
    ensures ScanChunk(p) == NoChunk
  {
    var t := EncodeChunk(data)[|p|..];
    assert p + t == EncodeChunk(data);
    ScanStable(p, t);
    ScanEncoded(data, []);
    assert EncodeChunk(data) + [] == EncodeChunk(data);
  }

  /** Chunks sent, followed by a cut-off chunk, are reassembled to the data sent. */
  lemma {:induction false} ReassembleEncoded(parts: seq<seq<byte>>, next: seq<byte>, p: seq<byte>)
    requires forall k :: 0 <= k < |parts| ==> parts[k] != [] && Addressable(parts[k])
    requires Addressable(next) && p < EncodeChunk(next)
    ensures Reassemble(EncodeChunks(parts) + p) == Reassembly(Concat(parts), p, |parts|, false)
    ensures Sized(EncodeChunks(parts) + p)
  {
    hide ScanChunk, EncodeChunk, Reassemble, Sized, HexText;
    if parts == [] {
      assert EncodeChunks(parts) + p == p;
      ReassembleStopped(p);
      ScanPartial(next, p);
    } else {
      EncodedHead(parts, p);
      ReassembleStep(parts[0], EncodeChunks(parts[1..]) + p, EncodeChunks(parts) + p);
      ReassembleEncoded(parts[1..], next, p);
    }
  }

  /** Chunks sent and closed by the zero chunk: everything after it stays in the buffer. */
  lemma {:induction false} ReassembleClosed(parts: seq<seq<byte>>, t: seq<byte>)
    requires forall k :: 0 <= k < |parts| ==> parts[k] != [] && Addressable(parts[k])
    ensures Reassemble(EncodeChunks(parts) + (EncodeChunk([]) + t))
         == Reassembly(Concat(parts), t, |parts| + 1, true)
  {
    hide ScanChunk, EncodeChunk, Reassemble, HexText;
    if parts == [] {
      assert EncodeChunks(parts) + (EncodeChunk([]) + t) == EncodeChunk([]) + t;
      ZeroChunk(t);
    } else {
      var u := EncodeChunk([]) + t;
      EncodedHead(parts, u);
      ReassembleStep(parts[0], EncodeChunks(parts[1..]) + u, EncodeChunks(parts) + u);
      ReassembleClosed(parts[1..], t);
    }
  }

  lemma ZeroChunk(t: seq<byte>)
    ensures Reassemble(EncodeChunk([]) + t) == Reassembly([], t, 1, true)
  {
    hide ScanChunk;
    assert |HexText(0)| == 1;
    assert |EncodeChunk([])| == 5;
    ScanEncoded([], t);
    assert (EncodeChunk([]) + t)[5..] == t;
  }

  lemma EncodedHead(parts: seq<seq<byte>>, t: seq<byte>)
    requires parts != [] && parts[0] != [] && Addressable(parts[0])
    ensures var s := EncodeChunks(parts) + t;
            var start := |HexText(|parts[0]|)| + 2;
            ScanChunk(s) == Chunk(start, |parts[0]|) && s[start..start + |parts[0]|] == parts[0]
            && s[start + |parts[0]| + 2..] == EncodeChunks(parts[1..]) + t
  {
    hide ScanChunk, HexText;
    var u := EncodeChunks(parts[1..]) + t;
    assert EncodeChunks(parts) + t == EncodeChunk(parts[0]) + u;
    ScanEncoded(parts[0], u);
  }

  /** End to end: data sent in chunks, cut anywhere into arrivals, comes out whole. */
  lemma SentIsReceived(parts: seq<seq<byte>>, next: seq<byte>, p: seq<byte>, arrivals: seq<Arrival>)
    requires forall k :: 0 <= k < |parts| ==> parts[k] != [] && Addressable(parts[k])
    requires Addressable(next) && p < EncodeChunk(next)
    requires Received(arrivals) == EncodeChunks(parts) + p
    ensures Run(arrivals).gone + Run(arrivals).body == Concat(parts) && Run(arrivals).rest == p
  {
    hide ScanChunk, Reassemble, EncodeChunk, EncodeChunks, HexText, Run;
    ReassembleEncoded(parts, next, p);
    if arrivals != [] && Reassemble(Received(arrivals[..|arrivals| - 1])).done {
      DoneStays(Received(arrivals[..|arrivals| - 1]), arrivals[|arrivals| - 1].data);
    }
    SplitInvariance(arrivals);
  }

  // ----- chunks as written by anyone

  const UPPER: string := "0123456789ABCDEF"
  const LOWER: string := "0123456789abcdef"

  /** The octet c is the digit d, in either case. */
  predicate Denotes(c: byte, d: nat) {
    d < 16 && (c == UPPER[d] as int || c == LOWER[d] as int)
  }

  predicate AllDenote(h: seq<byte>, ds: seq<nat>) {
    |h| == |ds| && forall k :: 0 <= k < |h| ==> Denotes(h[k], ds[k])
  }

  /** The number with these digits to base 16. */
  function Positional(ds: seq<nat>): nat {
    if ds == [] then 0 else Positional(ds[..|ds| - 1]) * 16 + ds[|ds| - 1]
  }

  lemma DigitDenotes(c: byte, d: nat)
    ensures Denotes(c, d) <==> IsHex(c) && HexDigit(c) == d
  {
  }

  lemma {:induction false} ValueDenoted(h: seq<byte>, ds: seq<nat>)
    requires AllDenote(h, ds)
    ensures (forall k :: 0 <= k < |h| ==> IsHex(h[k])) && HexValue(h) == Positional(ds)
  {
    hide Denotes, HexDigit;
    forall k | 0 <= k < |h| ensures IsHex(h[k]) && HexDigit(h[k]) == ds[k] {
      DigitDenotes(h[k], ds[k]);
    }
    if h != [] {
      ValueDenoted(h[..|h| - 1], ds[..|ds| - 1]);
    }
  }

  lemma {:induction false} DigitsOf(h: seq<byte>) returns (ds: seq<nat>)
    requires forall k :: 0 <= k < |h| ==> IsHex(h[k])
    ensures AllDenote(h, ds) && HexValue(h) == Positional(ds)
  {
    hide Denotes;
    ds := seq(|h|, k requires 0 <= k < |h| => HexDigit(h[k]));
    forall k | 0 <= k < |h| ensures Denotes(h[k], ds[k]) {
      DigitDenotes(h[k], ds[k]);
    }
    ValueDenoted(h, ds);
  }

  /** A size in hexadecimal digits of any case, leading zeros included, a line end, as much data, and a
      line end: that is a chunk, whatever follows. */
  lemma ScanReads(h: seq<byte>, ds: seq<nat>, data: seq<byte>, t: seq<byte>)
    requires h != [] && AllDenote(h, ds) && Positional(ds) == |data| && |h| + |data| + 4 < SIZE_LIMIT
    ensures ScanChunk(h + [13, 10] + data + [13, 10] + t) == Chunk(|h| + 2, |data|)
  {
    hide HexRun, HexValue, Positional, AllDenote;
    var rest := [13, 10] + (data + ([13, 10] + t));
    var s := h + rest;
    assert s == h + [13, 10] + data + [13, 10] + t;
    ValueDenoted(h, ds);
    HexRunExact(h, rest);
    var i, n := |h|, |data|;
    assert s[..i] == h && s[i] == rest[0] && s[i + 1] == rest[1];
    assert s[i + 2 + n] == rest[2 + n] && s[i + 3 + n] == rest[3 + n];
  }

  /** And nothing else is. */
  lemma ScanFinds(s: seq<byte>) returns (ds: seq<nat>)
    requires ScanChunk(s).Chunk?
    ensures var c := ScanChunk(s);
            && 3 <= c.start && c.start + c.dataLen + 2 <= |s| && c.start + c.dataLen + 2 < SIZE_LIMIT
            && AllDenote(s[..c.start - 2], ds) && Positional(ds) == c.dataLen
            && s[c.start - 2..c.start] == [13, 10] && s[c.start + c.dataLen..c.start + c.dataLen + 2] == [13, 10]
  {
    hide HexValue, Positional, AllDenote;
    var i := HexRun(s);
    ds := DigitsOf(s[..i]);
  }

  lemma UpperChar(d: nat)
    requires d < 16
    ensures HexChar(d) == UPPER[d] as int
  {
  }

  /** The sender's size line: the digits of the number in upper case, without leading zeros. */
  lemma {:induction false} SizeLine(n: nat) returns (ds: seq<nat>)
    ensures |HexText(n)| == |ds| && forall k :: 0 <= k < |ds| ==> ds[k] < 16 && HexText(n)[k] == UPPER[ds[k]] as int
    ensures Positional(ds) == n && (|ds| > 1 ==> ds[0] != 0)
  {
    hide HexChar, HexValue, HexDigit;
    UpperChar(n % 16);
    if n < 16 {
      ds := [n];
      assert Positional([n]) == Positional([n][..0]) * 16 + n;
    } else {
      var before := SizeLine(n / 16);
      ds := before + [n % 16];
      assert ds[..|ds| - 1] == before;
      assert |before| == 1 ==> Positional(before) == Positional(before[..0]) * 16 + before[0];
    }
  }

  // ----- the receiver, in place

  lemma HexValueStep(s: seq<byte>, i: nat)
    requires i < |s| && forall j :: 0 <= j <= i ==> IsHex(s[j])
    ensures HexValue(s[..i + 1]) == HexValue(s[..i]) * 16 + HexDigit(s[i])
  {
    assert s[..i + 1][..i] == s[..i];
  }

  /** n*16 + d, computed in a size_t. */
  lemma WrapStep(v: nat, d: nat)
    ensures (v % SIZE_LIMIT * 16 % SIZE_LIMIT + d) % SIZE_LIMIT == (v * 16 + d) % SIZE_LIMIT
  {
    var r := v % SIZE_LIMIT;
    var t := r * 16 % SIZE_LIMIT;
    var k := v / SIZE_LIMIT * 16 + r * 16 / SIZE_LIMIT;
    assert v * 16 + d == t + d + k * SIZE_LIMIT;
    WrapShift(t + d, k);
  }

  lemma WrapShift(a: nat, k: nat)
    ensures (a + k * SIZE_LIMIT) % SIZE_LIMIT == a % SIZE_LIMIT
  {
    var q, r := a / SIZE_LIMIT, a % SIZE_LIMIT;
    assert a + k * SIZE_LIMIT == (q + k) * SIZE_LIMIT + r;
  }

  /** mg_http_parse_chunk over buf[off..off+len): n is accumulated in a size_t, which wraps. */
  method ParseChunk(a: array<byte>, off: nat, len: nat) returns (total: nat, start: nat, dataLen: nat)
    requires off + len <= a.Length
    requires !ScanChunk(a[off..off + len]).TooBig?
    ensures total > 0 <==> ScanChunk(a[off..off + len]).Chunk?
    ensures total > 0 ==> ScanChunk(a[off..off + len]) == Chunk(start, dataLen)
                          && total == start + dataLen + 2
  {
    hide HexRun, HexValue;
    ghost var s := a[off..off + len];
    var n, i := 0, 0;
    assert s[..0] == [];
    HexValueOfNothing();
    while i < len && IsHex(a[off + i])
      invariant i <= HexRun(s)
      invariant n == HexValue(s[..i]) % SIZE_LIMIT
    {
      assert s[i] == a[off + i];
      HexValueStep(s, i);
      WrapStep(HexValue(s[..i]), HexDigit(s[i]));
      n := n * 16 % SIZE_LIMIT;
      n := (n + HexDigit(a[off + i])) % SIZE_LIMIT;
      i := i + 1;
    }
    assert i < len ==> !IsHex(s[i]);
    total, start, dataLen := 0, 0, 0;
    if i == 0 || i + 2 > len || a[off + i] != CR || a[off + i + 1] != LF {
      return;
    }
    assert s[i] == CR && s[i + 1] == LF;
    i := i + 2;
    start, dataLen := i, n;
    i := i + n;
    if i + 2 > len || a[off + i] != CR || a[off + i + 1] != LF {
      return;
    }
    assert s[i] == CR && s[i + 1] == LF;
    total := i + 2;
  }

  lemma HexValueOfNothing()
    ensures HexValue([]) == 0
  {
  }

  /** One round of the traversal: scan a chunk at i and, if it is complete, move its data to body. */
  method TakeChunk(a: array<byte>, off: nat, body: nat, i: nat, blen: nat) returns (n: nat, dataLen: nat)
    requires body <= i <= blen && off + blen <= a.Length
    requires !ScanChunk(a[off + i..off + blen]).TooBig?
    modifies a
    ensures n <= blen - i
    ensures n > 0 <==> ScanChunk(old(a[off + i..off + blen])).Chunk?
    ensures n == 0 ==> a[..] == old(a[..])
    ensures n > 0 ==>
      var left := old(a[off + i..off + blen]);
      var c := ScanChunk(left);
      && n == c.start + c.dataLen + 2 && dataLen == c.dataLen
      && a[..off + body + dataLen] == old(a[..off + body]) + left[c.start..c.start + dataLen]
      && a[off + i + n..off + blen] == left[n..]
  {
    hide ScanChunk, Placed;
    var total, start, size := ParseChunk(a, off + i, blen - i);
    n, dataLen := total, size;
    if n > 0 {
      ghost var m := a[..];
      MoveWithin(a, off + body, off + i + start, size);
      TakenSlices(m, off + body, off + i, off + blen, start, size);
    }
  }

  lemma TakenSlices(m: seq<byte>, dst: nat, lo: nat, hi: nat, start: nat, size: nat)
    requires dst <= lo && lo + start + size + 2 <= hi <= |m|
    ensures var left, n := m[lo..hi], start + size + 2;
            var r := Placed(m, dst, m[lo + start..lo + start + size]);
            r[..dst + size] == m[..dst] + left[start..start + size] && r[lo + n..hi] == left[n..]
  {
    hide Placed;
    var data, n := m[lo + start..lo + start + size], start + size + 2;
    SliceOfSlice(m, lo, hi, start, start + size);
    SliceOfSlice(m, lo, hi, n, hi - lo);
    PlacedOutside(m, dst, data, 0, dst);
    PlacedInside(m, dst, data);
    PlacedOutside(m, dst, data, lo + n, hi);
    var r := Placed(m, dst, data);
    assert r[..dst + size] == r[..dst] + r[dst..dst + size];
  }

  /** Part way through the traversal of raw: parsed has been taken from chunks chunks, left remains. */
  ghost predicate Midway(raw: seq<byte>, parsed: seq<byte>, left: seq<byte>, chunks: nat) {
    var r := Reassemble(left);
    && Sized(left)
    && Reassemble(raw) == Reassembly(parsed + r.body, r.rest, chunks + r.chunks, r.done)
  }

  ghost predicate Finished(raw: seq<byte>, parsed: seq<byte>, left: seq<byte>, chunks: nat, done: bool) {
    Reassemble(raw) == Reassembly(parsed, left, chunks, done)
  }

  lemma MidwayStart(raw: seq<byte>)
    requires Sized(raw)
    ensures Midway(raw, [], raw, 0)
  {
    hide Reassemble, Sized;
    assert [] + Reassemble(raw).body == Reassemble(raw).body;
  }

  lemma MidwayStep(raw: seq<byte>, parsed: seq<byte>, left: seq<byte>, chunks: nat)
    requires Midway(raw, parsed, left, chunks)
    ensures var c := ScanChunk(left);
            if c.Chunk? then
              var data, tail := left[c.start..c.start + c.dataLen], left[c.start + c.dataLen + 2..];
              if c.dataLen == 0 then Finished(raw, parsed + data, tail, chunks + 1, true)
              else Midway(raw, parsed + data, tail, chunks + 1)
            else !c.TooBig? && Finished(raw, parsed, left, chunks, false)
  {
    hide ScanChunk, Reassemble, Sized;
    NoOverflow(left);
    ReassembleStopped(left);
    var c := ScanChunk(left);
    if c.Chunk? {
      var data, tail := left[c.start..c.start + c.dataLen], left[c.start + c.dataLen + 2..];
      if c.dataLen == 0 {
        ReassembleZero(left);
        assert parsed + data == parsed + [];
      } else {
        ReassembleStep(data, tail, left);
        assert parsed + (data + Reassemble(tail).body) == parsed + data + Reassemble(tail).body;
      }
    } else {
      assert parsed + [] == parsed;
    }
  }

  /** The next chunk of a traversal, if there is one. */
  method TakeNext(a: array<byte>, off: nat, body: nat, i: nat, blen: nat,
                  ghost raw: seq<byte>, ghost parsed: seq<byte>, ghost chunks: nat)
    returns (n: nat, dataLen: nat, ghost data: seq<byte>)
    requires body <= i <= blen && off + blen <= a.Length
    requires Midway(raw, parsed, a[off + i..off + blen], chunks)
    modifies a
    ensures n <= blen - i && (n > 0 ==> dataLen == |data| && dataLen < n)
    ensures n == 0 ==> a[..] == old(a[..]) && Finished(raw, parsed, old(a[off + i..off + blen]), chunks, false)
    ensures n > 0 ==>
      var left := old(a[off + i..off + blen]);
      && a[..off + body + dataLen] == old(a[..off + body]) + data && a[off + i + n..off + blen] == left[n..]
      && if dataLen == 0 then Finished(raw, parsed + data, left[n..], chunks + 1, true)
         else Midway(raw, parsed + data, left[n..], chunks + 1)
  {
    hide *;
    ghost var left := a[off + i..off + blen];
    MidwayStep(raw, parsed, left, chunks);
    n, dataLen := TakeChunk(a, off, body, i, blen);
    data := if n > 0 then left[n - dataLen - 2..n - 2] else [];
  }

  /** The traversal in mg_handle_chunked over the body at a[off..off + blen), of which bodyLen bytes
      are reassembled already: chunk data moves down over the framing in front of it. */
  method CollapseChunks(a: array<byte>, off: nat, bodyLen: nat, blen: nat) returns (body: nat, i: nat, done: bool)
    requires bodyLen <= blen && off + blen <= a.Length
    requires Sized(a[off + bodyLen..off + blen])
    modifies a
    ensures bodyLen <= body <= i <= blen
    ensures var r := Reassemble(old(a[off + bodyLen..off + blen]));
            && (i == body <==> r.chunks == 0) && done == r.done
            && a[..off + body] == old(a[..off + bodyLen]) + r.body
            && a[off + i..off + blen] == r.rest
  {
    hide *;
    ghost var front, raw := a[..off + bodyLen], a[off + bodyLen..off + blen];
    ghost var parsed, left, chunks := [], raw, 0;
    body, i, done := bodyLen, bodyLen, false;
    MidwayStart(raw);
    assert front + parsed == front;
    while true
      invariant bodyLen <= body <= i <= blen
      invariant i == body <==> chunks == 0
      invariant a[..off + body] == front + parsed
      invariant left == a[off + i..off + blen]
      invariant !done && Midway(raw, parsed, left, chunks)
      decreases blen - i
    {
      var n, dataLen;
      ghost var data;
      n, dataLen, data := TakeNext(a, off, body, i, blen, raw, parsed, chunks);
      if n == 0 { break; }
      Associate(front, parsed, data);
      parsed, left, chunks := parsed + data, left[n..], chunks + 1;
      body, i := body + dataLen, i + n;
      if dataLen == 0 {
        done := true;
        break;
      }
    }
    FinishedMeans(raw, parsed, left, chunks, done);
  }

  lemma FinishedMeans(raw: seq<byte>, parsed: seq<byte>, left: seq<byte>, chunks: nat, done: bool)
    requires Finished(raw, parsed, left, chunks, done)
    ensures Reassemble(raw) == Reassembly(parsed, left, chunks, done)
  {
  }

  lemma NoOverflow(raw: seq<byte>)
    requires Sized(raw)
    ensures !ScanChunk(raw).TooBig?
  {
    hide ScanChunk;
  }

  lemma ReassembleZero(raw: seq<byte>)
    requires ScanChunk(raw).Chunk? && ScanChunk(raw).dataLen == 0
    ensures Reassemble(raw) == Reassembly([], raw[ScanChunk(raw).start + 2..], 1, true)
  {
    hide ScanChunk;
  }

  /** Unparsed bytes move down to the end of the body; the bytes freed at the end become zero. */
  method ShiftUnparsed(a: array<byte>, off: nat, body: nat, i: nat, blen: nat)
    requires body <= i <= blen && off + blen <= a.Length
    modifies a
    ensures a[..off + body] == old(a[..off + body])
    ensures a[off + body..off + body + blen - i] == old(a[off + i..off + blen])
    ensures a[off + body + blen - i..off + blen] == Zeros(i - body)
  {
    hide Placed;
    ghost var m, left := a[..], a[off + i..off + blen];
    var top := off + body + (blen - i);
    MoveWithin(a, off + body, off + i, blen - i);
    PlacedOutside(m, off + body, left, 0, off + body);
    PlacedInside(m, off + body, left);
    ghost var moved, zeros := a[..], Zeros(i - body);
    ClearRange(a, top, i - body);
    PlacedOutside(moved, top, zeros, 0, off + body);
    PlacedOutside(moved, top, zeros, off + body, top);
    PlacedInside(moved, top, zeros);
  }

  /** The body is wiped and the n unparsed bytes behind it take its place. */
  method DropBody(a: array<byte>, off: nat, body: nat, n: nat)
    requires off + body + n <= a.Length
    modifies a
    ensures a[..off] == old(a[..off])
    ensures a[off..off + n] == old(a[off + body..off + body + n])
  {
    hide Placed;
    ghost var m, zeros := a[..], Zeros(body);
    ClearRange(a, off, body);
    PlacedOutside(m, off, zeros, 0, off);
    PlacedOutside(m, off, zeros, off + body, off + body + n);
    ghost var wiped, left := a[..], a[off + body..off + body + n];
    MoveWithin(a, off, off + body, n);
    PlacedOutside(wiped, off, left, 0, off);
    PlacedInside(wiped, off, left);
  }

  /** The in-place work of mg_handle_chunked: collapse the chunks, then close the gap. */
  method Compact(a: array<byte>, off: nat, bodyLen: nat, blen: nat) returns (body: nat, i: nat, done: bool)
    requires bodyLen <= blen && off + blen <= a.Length
    requires Sized(a[off + bodyLen..off + blen])
    modifies a
    ensures bodyLen <= body <= i <= blen
    ensures a[..off] == old(a[..off])
    ensures var r := Reassemble(old(a[off + bodyLen..off + blen]));
            && (i == body <==> r.chunks == 0) && done == r.done
            && a[off..off + body] == old(a[off..off + bodyLen]) + r.body
            && a[off + body..off + body + (blen - i)] == r.rest
    ensures a[off + body + (blen - i)..off + blen] == Zeros(i - body)
  {
    hide Reassemble, Sized;
    ghost var header, kept := a[..off], a[off..off + bodyLen];
    assert header + kept == a[..off + bodyLen];
    ghost var r := Reassemble(a[off + bodyLen..off + blen]);
    body, i, done := CollapseChunks(a, off, bodyLen, blen);
    if i > body {
      ShiftUnparsed(a, off, body, i, blen);
    }
    SplitPrefix(a[..off + body], header, kept, r.body);
  }

  lemma SplitPrefix(s: seq<byte>, header: seq<byte>, x: seq<byte>, y: seq<byte>)
    requires s == header + x + y
    ensures s[..|header|] == header && s[|header|..] == x + y
  {
  }
}
