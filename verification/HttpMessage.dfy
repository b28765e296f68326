/** The receive event of the HTTP handler: finding the header, reassembling a chunked body behind it,
    handing over a whole message and taking it out of the buffer. */
module HttpMessage {
  import opened Bytes
  import opened Chunked
  import opened MbufModel
  import opened Sequences
  import opened Text

  const MAX_REQUEST_SIZE: nat := 8192

  // ----- where the header ends

  /** Neither printable nor a line break, nor beyond ASCII. */
  predicate Refused(c: byte) {
    (c < 32 && c != CR && c != LF) || c == 127
  }

  /** One past an empty line whose preceding line break is at i, or 0. */
  function HeaderEnd(s: seq<byte>, i: nat): (n: nat)
    requires i < |s|
    ensures n == 0 || (i + 2 <= n <= i + 3 && n <= |s|)
  {
    if s[i] != LF then 0
    else if i + 1 < |s| && s[i + 1] == LF then i + 2
    else if i + 2 < |s| && s[i + 1] == CR && s[i + 2] == LF then i + 3
    else 0
  }

  /** The length of the header if the search goes on at i: -1 if it is malformed, 0 if it is not all there. */
  function LengthFrom(s: seq<byte>, i: nat): (n: int)
    requires i <= |s|
    ensures -1 <= n <= |s|
    decreases |s| - i
  {
    if i == |s| then 0
    else if Refused(s[i]) then -1
    else if HeaderEnd(s, i) > 0 then HeaderEnd(s, i)
    else LengthFrom(s, i + 1)
  }

  function RequestLen(s: seq<byte>): (n: int)
    ensures -1 <= n <= |s|
  {
    LengthFrom(s, 0)
  }

  lemma {:induction false} HeaderFrom(h: seq<byte>, t: seq<byte>, i: nat)
    requires i <= |h| && LengthFrom(h, i) == |h| > 0
    ensures LengthFrom(h + t, i) == |h|
    ensures forall n :: i <= n < |h| ==> LengthFrom(h[..n], i) == 0
    decreases |h| - i
  {
    assert i < |h| && (h + t)[i] == h[i];
    if HeaderEnd(h, i) == 0 {
      HeaderFrom(h, t, i + 1);
    }
    forall n | i <= n < |h| ensures LengthFrom(h[..n], i) == 0 {
      if i < n { assert h[..n][i] == h[i]; }
      if n == |h| - 1 > i { assert LengthFrom(h[..n], i + 1) == 0; }
    }
  }

  /** A header is found where it ends, whatever follows, and not before it is all there. */
  lemma HeaderFound(h: seq<byte>, t: seq<byte>)
    requires RequestLen(h) == |h| > 0
    ensures RequestLen(h + t) == |h|
    ensures forall p :: p < h ==> RequestLen(p) == 0
  {
    HeaderFrom(h, t, 0);
    forall p | p < h ensures RequestLen(p) == 0 {
      assert p == h[..|p|];
    }
  }

  // ----- which octets those are

  /** The first n octets end in an empty line. */
  predicate EndsEmpty(s: seq<byte>, n: nat) {
    && n <= |s|
    && ((n >= 2 && s[n - 2] == 10 && s[n - 1] == 10) || (n >= 3 && s[n - 3] == 10 && s[n - 2] == 13 && s[n - 1] == 10))
  }

  predicate NoneEmpty(s: seq<byte>, n: nat) {
    forall m :: 0 <= m <= n ==> !EndsEmpty(s, m)
  }

  /** Printable, a line break, or beyond ASCII. */
  predicate Allowed(c: byte) {
    32 <= c <= 126 || c == 10 || c == 13 || c >= 128
  }

  /** Where the search stops: at the line break before the empty line, or what is not allowed. */
  lemma {:induction false} LengthFromIs(s: seq<byte>, i: nat) returns (j: nat)
    requires i <= |s| && forall k :: 0 <= k < i ==> Allowed(s[k]) && HeaderEnd(s, k) == 0
    ensures j <= |s| && forall k :: 0 <= k < j ==> Allowed(s[k]) && HeaderEnd(s, k) == 0
    ensures var n := LengthFrom(s, i);
            && (n > 0 ==> j < |s| && HeaderEnd(s, j) == n && Allowed(s[j]))
            && (n == 0 ==> j == |s|) && (n < 0 ==> j < |s| && !Allowed(s[j]))
    decreases |s| - i
  {
    hide HeaderEnd;
    j := i;
    if i < |s| && !Refused(s[i]) && HeaderEnd(s, i) == 0 {
      j := LengthFromIs(s, i + 1);
    }
  }

  lemma NoneBefore(s: seq<byte>, j: nat)
    requires j <= |s| && forall k :: 0 <= k < j ==> HeaderEnd(s, k) == 0
    ensures NoneEmpty(s, j)
    ensures j < |s| && HeaderEnd(s, j) > 0 ==>
      var n := HeaderEnd(s, j); EndsEmpty(s, n) && NoneEmpty(s, n - 1) && forall k :: j <= k < n ==> Allowed(s[k])
  {
    forall m | 0 <= m <= |s| && EndsEmpty(s, m) ensures m > j && (j < |s| && HeaderEnd(s, j) > 0 ==> m >= HeaderEnd(s, j)) {
      var k := if m >= 2 && s[m - 2] == 10 then m - 2 else m - 3;
      assert HeaderEnd(s, k) == m;
    }
  }

  /** The header ends at the first empty line, if nothing that is not allowed comes before: it is
      malformed exactly if such an octet comes first, and not all there if neither comes. */
  lemma RequestLenIs(s: seq<byte>)
    ensures forall n :: n > 0 ==>
      (RequestLen(s) == n <==> EndsEmpty(s, n) && NoneEmpty(s, n - 1) && forall k :: 0 <= k < n ==> Allowed(s[k]))
    ensures RequestLen(s) == -1 <==> exists k :: 0 <= k < |s| && !Allowed(s[k]) && NoneEmpty(s, k)
    ensures RequestLen(s) == 0 <==> NoneEmpty(s, |s|) && forall k :: 0 <= k < |s| ==> Allowed(s[k])
  {
    hide HeaderEnd, LengthFrom, Allowed;
    var j := LengthFromIs(s, 0);
    NoneBefore(s, j);
    var r := RequestLen(s);
    assert r > 0 ==> EndsEmpty(s, r) && NoneEmpty(s, r - 1) && forall k :: 0 <= k < r ==> Allowed(s[k]);
    forall n | n > 0 && EndsEmpty(s, n) && NoneEmpty(s, n - 1) && forall k :: 0 <= k < n ==> Allowed(s[k])
      ensures RequestLen(s) == n
    {
      OneEnd(s, n, RequestLen(s));
    }
  }

  lemma OneEnd(s: seq<byte>, n: nat, r: int)
    requires n > 0 && EndsEmpty(s, n) && NoneEmpty(s, n - 1) && forall k :: 0 <= k < n ==> Allowed(s[k])
    requires r > 0 ==> EndsEmpty(s, r) && NoneEmpty(s, r - 1)
    requires r == 0 ==> NoneEmpty(s, |s|)
    requires r < 0 ==> exists k :: 0 <= k < |s| && !Allowed(s[k]) && NoneEmpty(s, k)
    ensures r == n
  {
  }

  /** Lines, each closed by a line end. */
  function Lines(lines: seq<seq<byte>>): seq<byte> {
    if lines == [] then [] else lines[0] + [13, 10] + Lines(lines[1..])
  }

  /** Lines of printable octets, none empty, closed by an empty line, are a header and no more. */
  lemma LinesAreHeader(lines: seq<seq<byte>>, t: seq<byte>)
    requires lines != []
    requires forall i :: 0 <= i < |lines| ==> lines[i] != [] && forall k :: 0 <= k < |lines[i]| ==> 32 <= lines[i][k] <= 126
    ensures var h := Lines(lines) + [13, 10]; RequestLen(h) == |h| && RequestLen(h + t) == |h|
  {
    hide RequestLen, Lines;
    var h := Lines(lines) + [13, 10];
    LinesShape(lines);
    var u := Lines(lines);
    assert h[|u|] == 13 && h[|u| + 1] == 10 && forall k :: 0 <= k < |u| ==> h[k] == u[k];
    assert EndsEmpty(h, |h|);
    forall m | 0 <= m < |h| ensures !EndsEmpty(h, m) {
      if m >= 3 && h[m - 3] == 10 { assert h[m - 2] >= 32; }
      if m >= 2 && h[m - 2] == 10 && m < |h| - 1 { assert h[m - 1] >= 32; }
    }
    RequestLenIs(h);
    HeaderFound(h, t);
  }

  /** No line break is followed by another in printed lines, and they end with one. */
  lemma {:induction false} LinesShape(lines: seq<seq<byte>>)
    requires lines != []
    requires forall i :: 0 <= i < |lines| ==> lines[i] != [] && forall k :: 0 <= k < |lines[i]| ==> 32 <= lines[i][k] <= 126
    ensures var u := Lines(lines);
            && |u| >= 3 && u[0] >= 32 && u[|u| - 3] >= 32 && u[|u| - 2] == 13 && u[|u| - 1] == 10
            && (forall k :: 0 <= k < |u| ==> Allowed(u[k]))
            && forall k :: 0 <= k < |u| - 1 && u[k] == 10 ==> u[k + 1] >= 32
  {
    var first, rest := lines[0] + [13, 10], Lines(lines[1..]);
    if |lines| > 1 {
      LinesShape(lines[1..]);
    } else {
      assert rest == [];
    }
    var u := first + rest;
    assert u == Lines(lines);
    forall k | 0 <= k < |u| - 1 && u[k] == 10 ensures u[k + 1] >= 32 {
      if k >= |first| { assert u[k] == rest[k - |first|] && u[k + 1] == rest[k + 1 - |first|]; }
    }
  }

  /** mg_http_get_request_len */
  method GetRequestLen(s: array<byte>, len: nat) returns (n: int)
    requires len <= s.Length
    ensures n == RequestLen(s[..len])
  {
    var i := 0;
    while i < len
      invariant i <= len && LengthFrom(s[..len], i) == RequestLen(s[..len])
    {
      if Refused(s[i]) {
        return -1;
      } else if s[i] == LF && i + 1 < len && s[i + 1] == LF {
        return i + 2;
      } else if s[i] == LF && i + 2 < len && s[i + 1] == CR && s[i + 2] == LF {
        return i + 3;
      }
      i := i + 1;
    }
    return 0;
  }

  // ----- the connection as a value

  /** What the rest of mg_parse_http makes of a header: content is the length of the body as the
      header gives it, None for one that lasts until the connection is closed. */
  datatype Head = Malformed | Head(chunked: bool, content: Option<nat>)

  type Look = seq<byte> -> Head

  /** buf: what is in the buffer; bodyLen: the octets of it behind the header that are reassembled;
      gone: deleted at the handler's request; chunks and requests: the bodies handed over. */
  datatype Connection = Connection(
    buf: seq<byte>, bodyLen: nat, gone: seq<byte>, chunks: seq<seq<byte>>, requests: seq<seq<byte>>,
    closing: bool, failed: bool)

  function Body(c: Connection, len: nat): seq<byte>
    requires len + c.bodyLen <= |c.buf|
  {
    c.buf[len..len + c.bodyLen]
  }

  function Unparsed(c: Connection, len: nat): seq<byte>
    requires len + c.bodyLen <= |c.buf|
  {
    c.buf[len + c.bodyLen..]
  }

  /** mg_handle_chunked, given what it finds behind the body so far. */
  function Collapse(c: Connection, len: nat, r: Reassembly, deleteChunk: bool): (d: Connection)
    requires len + c.bodyLen <= |c.buf|
    ensures r.chunks > 0 ==> len + d.bodyLen + |r.rest| == |d.buf|
  {
    if r.chunks == 0 then c
    else
      var s := Settled(Session(c.gone, Body(c, len), Unparsed(c, len)), r, deleteChunk);
      c.(buf := c.buf[..len] + s.body + s.rest, bodyLen := |s.body|, gone := s.gone,
         chunks := c.chunks + [Body(c, len) + r.body])
  }

  /** The body behind the header is handed over and size octets are taken off the front. */
  function HandOver(c: Connection, len: nat, bodyLen: nat, size: nat): Connection
    requires len + bodyLen <= |c.buf| && size <= |c.buf|
  {
    c.(requests := c.requests + [c.buf[len..len + bodyLen]], buf := c.buf[size..])
  }

  function HandleWhole(c: Connection, len: nat, bodyLen: nat, content: Option<nat>): Connection
    requires len <= |c.buf| && (content.Some? && len + content.value <= |c.buf| ==> len + bodyLen <= |c.buf|)
  {
    if content.Some? && len + content.value <= |c.buf| then HandOver(c, len, bodyLen, len + content.value) else c
  }

  function HandleHead(c: Connection, len: nat, head: Head, deleteChunk: bool): Connection
    requires len <= |c.buf| && head.Head?
  {
    if !head.chunked then HandleWhole(c, len, if head.content.Some? then head.content.value else 0, head.content)
    else if len + c.bodyLen > |c.buf| then c.(failed := true)
    else
      var r := Reassemble(Unparsed(c, len));
      var d := Collapse(c, len, r, deleteChunk);
      if r.done then HandOver(d, len, d.bodyLen, d.bodyLen + |r.rest|)
      else if r.chunks > 0 then HandleWhole(d, len, d.bodyLen, head.content)
      else HandleWhole(d, len, if head.content.Some? then head.content.value else 0, head.content)
  }

  /** The receive event. A failed assertion ends everything, and a connection to be closed gets no more. */
  function Receive(look: Look, c: Connection, a: Arrival): Connection {
    if c.failed || c.closing then c
    else
      var d := c.(buf := c.buf + a.data);
      var len := RequestLen(d.buf);
      if len == 0 then d.(closing := |d.buf| >= MAX_REQUEST_SIZE)
      else if len < 0 || look(d.buf[..len]).Malformed? then d.(closing := true)
      else HandleHead(d, len, look(d.buf[..len]), a.deleteChunk)
  }

  function Serve(look: Look, c: Connection, arrivals: seq<Arrival>): Connection {
    if arrivals == [] then c
    else Receive(look, Serve(look, c, arrivals[..|arrivals| - 1]), arrivals[|arrivals| - 1])
  }

  const NEW: Connection := Connection([], 0, [], [], [], false, false)

  // ----- one chunked message, cut anywhere

  /** A whole header, not too long, of a chunked message whose length is not given otherwise. */
  ghost predicate ChunkedHeader(look: Look, h: seq<byte>) {
    RequestLen(h) == |h| && 0 < |h| <= MAX_REQUEST_SIZE && look(h) == Head(true, None)
  }

  /** Nothing has been received but part of the header. */
  predicate AtHeader(c: Connection, h: seq<byte>) {
    c.buf <= h && c.bodyLen == 0 && !c.failed && !c.closing
  }

  /** The zero chunk is in the stream t that began with h. */
  predicate Ended(h: seq<byte>, t: seq<byte>) {
    |h| <= |t| && Reassemble(t[|h|..]).done
  }

  /** Behind the header: the data of all complete chunks has been deleted or kept, in order, and the
      unparsed end lies behind what was kept. */
  ghost predicate InBody(c: Connection, d: Connection, h: seq<byte>, r: Reassembly) {
    && !d.failed && !d.closing && d.requests == c.requests && |h| + d.bodyLen <= |d.buf|
    && d.buf == h + Body(d, |h|) + r.rest && d.gone + Body(d, |h|) == c.gone + r.body
  }

  /** The message was handed over, with the body kept, and as many octets as the body and what
      follows have were taken off the front. */
  ghost predicate HandedOver(c: Connection, d: Connection, h: seq<byte>, r: Reassembly, kept: seq<byte>) {
    && !d.failed && !d.closing && d.requests == c.requests + [kept] && d.gone + kept == c.gone + r.body
    && d.buf == (h + kept + r.rest)[|kept| + |r.rest|..] && d.bodyLen == |kept|
  }

  /** What one pass keeps of the body b, with r found behind it. */
  function Kept(b: seq<byte>, r: Reassembly, deleteChunk: bool): seq<byte> {
    if r.chunks == 0 then b else if deleteChunk then [] else b + r.body
  }

  function Deleted(b: seq<byte>, r: Reassembly, deleteChunk: bool): seq<byte> {
    if r.chunks > 0 && deleteChunk then b + r.body else []
  }

  /** One receive event with the header at the front, the body b behind it and then raw. */
  lemma HandleStep(d: Connection, h: seq<byte>, b: seq<byte>, raw: seq<byte>, deleteChunk: bool)
    requires d.buf == h + b + raw && d.bodyLen == |b|
    ensures var r := Reassemble(raw);
            var kept := Kept(b, r, deleteChunk);
            var e := HandleHead(d, |h|, Head(true, None), deleteChunk);
            && e.gone == d.gone + Deleted(b, r, deleteChunk) && e.bodyLen == |kept| && e.failed == d.failed && e.closing == d.closing
            && e.requests == (if r.done then d.requests + [kept] else d.requests)
            && e.buf == (if r.done then (h + kept + r.rest)[|kept| + |r.rest|..] else h + kept + r.rest)
  {
    hide Reassemble;
    Slices(h, b, raw);
    var r := Reassemble(raw);
    SettledIs(Session(d.gone, b, raw), r, deleteChunk);
    var kept := Kept(b, r, deleteChunk);
    assert Body(d, |h|) == b && Unparsed(d, |h|) == raw;
    var e := Collapse(d, |h|, r, deleteChunk);
    assert e.buf == h + kept + r.rest;
    Slices(h, kept, r.rest);
    assert d.gone + [] == d.gone;
  }

  lemma Slices(h: seq<byte>, b: seq<byte>, raw: seq<byte>)
    ensures var s := h + b + raw;
            s[..|h|] == h && s[|h|..|h| + |b|] == b && s[|h| + |b|..] == raw && |s| == |h| + |b| + |raw|
  {
  }

  lemma ReceiveIs(look: Look, h: seq<byte>, d: Connection, b: seq<byte>, rest: seq<byte>, a: Arrival)
    requires ChunkedHeader(look, h) && !d.failed && !d.closing && d.buf == h + b + rest
    ensures Receive(look, d, a) ==
      HandleHead(d.(buf := h + b + (rest + a.data)), |h|, Head(true, None), a.deleteChunk)
  {
    hide HandleHead, RequestLen;
    HeaderFound(h, b + (rest + a.data));
    assert d.buf + a.data == h + (b + (rest + a.data)) == h + b + (rest + a.data);
    assert (d.buf + a.data)[..|h|] == h;
  }

  /** The same for the event as a whole. */
  lemma PassIs(look: Look, h: seq<byte>, d: Connection, b: seq<byte>, rest: seq<byte>, a: Arrival)
    requires ChunkedHeader(look, h) && !d.failed && !d.closing && d.buf == h + b + rest && d.bodyLen == |b|
    ensures var r := Reassemble(rest + a.data);
            var kept := Kept(b, r, a.deleteChunk);
            var e := Receive(look, d, a);
            && e.gone == d.gone + Deleted(b, r, a.deleteChunk) && e.bodyLen == |kept| && !e.failed && !e.closing
            && e.requests == (if r.done then d.requests + [kept] else d.requests)
            && e.buf == (if r.done then (h + kept + r.rest)[|kept| + |r.rest|..] else h + kept + r.rest)
  {
    hide *;
    var raw := rest + a.data;
    ReceiveIs(look, h, d, b, rest, a);
    HandleStep(d.(buf := h + b + raw), h, b, raw, a.deleteChunk);
  }

  ghost predicate Follows(c: Connection, d: Connection, h: seq<byte>, r: Reassembly) {
    if r.done then d.requests != [] && HandedOver(c, d, h, r, d.requests[|d.requests| - 1]) else InBody(c, d, h, r)
  }

  /** The fields after a pass, put together. */
  lemma Conclude(c: Connection, e: Connection, h: seq<byte>, r: Reassembly, kept: seq<byte>)
    requires !e.failed && !e.closing && e.bodyLen == |kept| && e.gone + kept == c.gone + r.body
    requires e.requests == if r.done then c.requests + [kept] else c.requests
    requires e.buf == if r.done then (h + kept + r.rest)[|kept| + |r.rest|..] else h + kept + r.rest
    ensures Follows(c, e, h, r)
  {
    Slices(h, kept, r.rest);
  }

  /** One more arrival behind the stream x that followed the header. */
  lemma Continue(look: Look, h: seq<byte>, c: Connection, d: Connection, x: seq<byte>, a: Arrival)
    requires ChunkedHeader(look, h) && !Reassemble(x).done && InBody(c, d, h, Reassemble(x))
    ensures Follows(c, Receive(look, d, a), h, Reassemble(x + a.data))
  {
    hide Reassemble, ChunkedHeader, HandleHead, Receive, Follows, Kept, Deleted;
    var r, b := Reassemble(x), Body(d, |h|);
    ReassembleAppend(x, a.data);
    var raw := r.rest + a.data;
    var next := Reassemble(raw);
    ReassembleKeeps(raw);
    PassIs(look, h, d, b, r.rest, a);
    Moved(c.gone, d.gone, r.body, b, next, a.deleteChunk);
    Conclude(c, Receive(look, d, a), h, Reassemble(x + a.data), Kept(b, next, a.deleteChunk));
  }

  lemma ReassembleKeeps(raw: seq<byte>)
    ensures var r := Reassemble(raw); r.chunks == 0 ==> r == Reassembly([], raw, 0, false)
  {
    hide ScanChunk;
  }

  lemma Moved(before: seq<byte>, gone: seq<byte>, done: seq<byte>, b: seq<byte>, r: Reassembly, deleteChunk: bool)
    requires gone + b == before + done && (r.chunks == 0 ==> r.body == [])
    ensures gone + Deleted(b, r, deleteChunk) + Kept(b, r, deleteChunk) == before + (done + r.body)
  {
    Associate(before, done, r.body);
    Associate(gone, b, r.body);
    Associate(gone, Deleted(b, r, deleteChunk), Kept(b, r, deleteChunk));
    assert [] + b == b && (b + r.body) + [] == b + r.body && [] + (b + r.body) == b + r.body && b + [] == b;
  }

  /** What a connection that was at the header has become when t has been received since its start. */
  ghost predicate Served(c: Connection, d: Connection, h: seq<byte>, t: seq<byte>) {
    if |t| < |h| then AtHeader(d, h) && d.buf == t && d.gone == c.gone && d.requests == c.requests
    else Follows(c, d, h, Reassemble(t[|h|..]))
  }

  /** However the header and the chunks behind it are cut into arrivals, and whatever the handler
      deletes on the way: up to the zero chunk everything is in its place; with it the message is
      handed over. */
  lemma {:induction false} Delivers(look: Look, h: seq<byte>, c: Connection, arrivals: seq<Arrival>)
    requires ChunkedHeader(look, h) && AtHeader(c, h)
    requires var t := c.buf + Received(arrivals); t <= h || h <= t
    requires arrivals != [] ==> !Ended(h, c.buf + Received(arrivals[..|arrivals| - 1]))
    ensures Served(c, Serve(look, c, arrivals), h, c.buf + Received(arrivals))
    decreases |arrivals|
  {
    hide Reassemble, ChunkedHeader, Receive, Follows;
    if arrivals == [] {
      assert c.buf + [] == c.buf;
      if c.buf == h { HeaderOnly(c, h); }
    } else {
      var before, last := arrivals[..|arrivals| - 1], arrivals[|arrivals| - 1];
      var u, d := c.buf + Received(before), Serve(look, c, before);
      Associate(c.buf, Received(before), last.data);
      var t := u + last.data;
      assert u == t[..|u|];
      if before != [] {
        EndedStays(h, c.buf + Received(before[..|before| - 1]), before[|before| - 1].data);
        Associate(c.buf, Received(before[..|before| - 1]), before[|before| - 1].data);
      }
      Delivers(look, h, c, before);
      if |u| < |h| {
        FirstOctets(look, h, c, d, last);
      } else {
        assert t[|h|..] == u[|h|..] + last.data;
        Continues(look, h, c, d, u[|h|..], last);
      }
    }
  }

  lemma Continues(look: Look, h: seq<byte>, c: Connection, d: Connection, x: seq<byte>, a: Arrival)
    requires ChunkedHeader(look, h) && !Reassemble(x).done && Follows(c, d, h, Reassemble(x))
    ensures Follows(c, Receive(look, d, a), h, Reassemble(x + a.data))
  {
    hide Reassemble, ChunkedHeader, Receive;
    Continue(look, h, c, d, x, a);
  }

  lemma HeaderOnly(c: Connection, h: seq<byte>)
    requires c.buf == h && c.bodyLen == 0 && !c.failed && !c.closing
    ensures h[|h|..] == [] && !Reassemble([]).done && InBody(c, c, h, Reassemble([])) && Served(c, c, h, h)
  {
    assert Reassemble([]) == Reassembly([], [], 0, false);
    assert h + [] + [] == h && h[|h|..] == [];
  }

  lemma EndedStays(h: seq<byte>, t: seq<byte>, y: seq<byte>)
    ensures Ended(h, t) ==> Ended(h, t + y)
  {
    hide Reassemble;
    if Ended(h, t) {
      assert (t + y)[|h|..] == t[|h|..] + y;
      DoneStays(t[|h|..], y);
    }
  }

  /** An arrival while the header is not all there. */
  lemma FirstOctets(look: Look, h: seq<byte>, c: Connection, d: Connection, a: Arrival)
    requires ChunkedHeader(look, h) && AtHeader(d, h) && |d.buf| < |h| && (d.buf + a.data <= h || h <= d.buf + a.data)
    requires d.gone == c.gone && d.requests == c.requests
    ensures Served(c, Receive(look, d, a), h, d.buf + a.data)
  {
    var t := d.buf + a.data;
    if |t| < |h| {
      HeaderFound(h, []);
      assert RequestLen(t) == 0;
    } else {
      hide Reassemble, ChunkedHeader, Receive;
      var d' := d.(buf := h);
      HeaderOnly(d', h);
      var y := t[|h|..];
      assert [] + y == y && t == h + y;
      assert InBody(c, d', h, Reassemble([]));
      Continue(look, h, c, d', [], Arrival(y, a.deleteChunk));
      SameBuffer(look, d, a, d', Arrival(y, a.deleteChunk));
    }
  }

  lemma SameBuffer(look: Look, c: Connection, a: Arrival, d: Connection, b: Arrival)
    requires c.buf + a.data == d.buf + b.data && c == d.(buf := c.buf) && a.deleteChunk == b.deleteChunk
    ensures Receive(look, c, a) == Receive(look, d, b) || c.failed || c.closing
  {
    hide HandleHead, RequestLen;
    assert c.(buf := c.buf + a.data) == d.(buf := d.buf + b.data);
  }

  // ----- behind the zero chunk

  /** With as many octets taken off the front of a message as its body and what follows have, as many
      as the header has are left. */
  lemma LeftOver(h: seq<byte>, kept: seq<byte>, rest: seq<byte>)
    requires h != []
    ensures var left, n := (h + kept + rest)[|kept| + |rest|..], |kept| + |rest|;
            && |left| == |h|
            && (left == rest <==> |rest| == |h|)
            && (left == h + kept + rest <==> n == 0)
            && (n >= |h| ==> left == (kept + rest)[n - |h|..])
  {
    var s, n := h + kept + rest, |kept| + |rest|;
    assert s == h + (kept + rest);
    if |rest| == |h| {
      assert s[|h + kept|..] == rest;
    }
    if n >= |h| {
      assert s[|h|..] == kept + rest;
      assert s[n..] == s[|h|..][n - |h|..];
    }
  }

  /** After the arrival with the zero chunk: the body is handed over whole, and the connection is
      ready for what follows the message exactly if that is as long as the header and nothing of the
      body was kept. If there is nothing to take off, the header stays, with an empty body; if there
      is at least as much as the header is long, no octet of the header does. */
  lemma MessageLeft(look: Look, h: seq<byte>, c: Connection, arrivals: seq<Arrival>)
    requires ChunkedHeader(look, h) && AtHeader(c, h) && arrivals != []
    requires var t := c.buf + Received(arrivals); h <= t && Ended(h, t)
    requires !Ended(h, c.buf + Received(arrivals[..|arrivals| - 1]))
    ensures var d, r := Serve(look, c, arrivals), Reassemble((c.buf + Received(arrivals))[|h|..]);
            && |d.requests| == |c.requests| + 1 && d.requests[..|c.requests|] == c.requests
            && var kept := d.requests[|c.requests|];
            && d.gone + kept == c.gone + r.body && |d.buf| == |h|
            && (d.buf == r.rest && d.bodyLen == 0 <==> |r.rest| == |h| && kept == [])
            && (kept == [] && r.rest == [] ==> d.buf == h && AtHeader(d, h))
            && (|kept| + |r.rest| >= |h| ==> d.buf == (kept + r.rest)[|kept| + |r.rest| - |h|..])
  {
    hide Reassemble, ChunkedHeader, Serve;
    Delivers(look, h, c, arrivals);
    var d, r := Serve(look, c, arrivals), Reassemble((c.buf + Received(arrivals))[|h|..]);
    assert h != [] by { NotEmpty(look, h); }
    var kept := d.requests[|d.requests| - 1];
    LeftOver(h, kept, r.rest);
    if kept == [] && r.rest == [] {
      assert h + [] + [] == h;
    }
  }

  lemma NotEmpty(look: Look, h: seq<byte>)
    requires ChunkedHeader(look, h)
    ensures h != []
  {
  }

  lemma {:induction false} ServeOn(look: Look, c: Connection, first: seq<Arrival>, late: seq<Arrival>)
    ensures Serve(look, c, first + late) == Serve(look, Serve(look, c, first), late)
  {
    hide Receive;
    if late == [] {
      assert first + [] == first;
    } else {
      var n := |late| - 1;
      assert (first + late)[..|first + late| - 1] == first + late[..n];
      ServeOn(look, c, first, late[..n]);
    }
  }

  /** A connection with its header still there: the chunks of later arrivals are put into the body. */
  lemma LateChunks(look: Look, h: seq<byte>, d: Connection, late: seq<Arrival>)
    requires ChunkedHeader(look, h) && AtHeader(d, h) && d.buf == h && !Reassemble(Received(late)).done
    ensures InBody(d, Serve(look, d, late), h, Reassemble(Received(late)))
  {
    hide Reassemble, ChunkedHeader, Serve;
    assert (h + Received(late))[|h|..] == Received(late);
    if late != [] {
      var before, last := late[..|late| - 1], late[|late| - 1];
      Associate(h, Received(before), last.data);
      EndedStays(h, h + Received(before), last.data);
    }
    Delivers(look, h, d, late);
  }

  /** As long as no header is found at the front, octets that arrive only lengthen the buffer. */
  lemma {:induction false} LeftAlone(look: Look, d: Connection, late: seq<Arrival>)
    requires !d.failed && !d.closing
    requires forall n :: 0 < n <= |late| ==>
      RequestLen(d.buf + Received(late[..n])) == 0 && |d.buf + Received(late[..n])| < MAX_REQUEST_SIZE
    ensures Serve(look, d, late) == d.(buf := d.buf + Received(late))
  {
    hide RequestLen, HandleHead;
    if late == [] {
      assert d.buf + [] == d.buf;
    } else {
      var before, last := late[..|late| - 1], late[|late| - 1];
      assert forall n :: 0 < n <= |before| ==> before[..n] == late[..n];
      assert late[..|late|] == late;
      LeftAlone(look, d, before);
      Associate(d.buf, Received(before), last.data);
    }
  }

  /** A whole message sent in chunks, cut anywhere: the data comes out whole, exactly one request is
      handed over, and the buffer is not empty afterwards. */
  lemma MessageIsReceived(look: Look, h: seq<byte>, parts: seq<seq<byte>>, arrivals: seq<Arrival>)
    requires ChunkedHeader(look, h)
    requires forall k :: 0 <= k < |parts| ==> parts[k] != [] && Addressable(parts[k])
    requires Received(arrivals) == h + (EncodeChunks(parts) + EncodeChunk([]))
    requires arrivals != [] && arrivals[|arrivals| - 1].data != []
    ensures var d := Serve(look, NEW, arrivals);
            && |d.requests| == 1 && d.gone + d.requests[0] == Concat(parts)
            && |d.buf| == |h| && d.bodyLen == |d.requests[0]|
  {
    hide Reassemble, ChunkedHeader, Serve, EncodeChunk, EncodeChunks;
    var stream := EncodeChunks(parts) + EncodeChunk([]);
    var before, last := arrivals[..|arrivals| - 1], arrivals[|arrivals| - 1];
    assert EncodeChunk([]) + [] == EncodeChunk([]);
    ReassembleClosed(parts, []);
    var t := NEW.buf + Received(arrivals);
    assert t == Received(arrivals) && t[|h|..] == stream;
    assert NEW.buf + Received(before) == Received(before);
    if Ended(h, Received(before)) {
      assert t[|h|..] == Received(before)[|h|..] + last.data;
      DoneStays(Received(before)[|h|..], last.data);
    }
    Delivers(look, h, NEW, arrivals);
    NotEmpty(look, h);
    var d := Serve(look, NEW, arrivals);
    LeftOver(h, d.requests[|d.requests| - 1], []);
    assert [] + Concat(parts) == Concat(parts);
  }

  // ----- two later arrivals

  /** The octet 'A' as a chunk. */
  lemma ChunkOfA()
    ensures EncodeChunk([65]) == [49, 13, 10, 65, 13, 10]
    ensures Reassemble([49, 13, 10, 65, 13, 10]) == Reassembly([65], [], 1, false)
  {
    hide ScanChunk, Reassemble;
    assert HexText(1) == [49];
    OneChunk([65]);
  }

  /** One arrival with the header, the chunks of parts and the zero chunk, nothing deleted. */
  lemma AtOnce(look: Look, h: seq<byte>, parts: seq<seq<byte>>)
    requires ChunkedHeader(look, h)
    requires forall k :: 0 <= k < |parts| ==> parts[k] != [] && Addressable(parts[k])
    ensures var d := Receive(look, NEW, Arrival(h + (EncodeChunks(parts) + EncodeChunk([])), false));
            && d.requests == [Concat(parts)] && d.bodyLen == |Concat(parts)| && !d.failed && !d.closing
            && d.buf == (h + Concat(parts))[|Concat(parts)|..]
  {
    hide Reassemble, ChunkedHeader, Receive, HandleHead, EncodeChunk, EncodeChunks;
    var b, raw := Concat(parts), EncodeChunks(parts) + EncodeChunk([]);
    assert EncodeChunk([]) + [] == EncodeChunk([]);
    ReassembleClosed(parts, []);
    var d := NEW.(buf := h);
    NotEmpty(look, h);
    assert [] + (h + raw) == h + raw && h + [] + [] == h && [] + raw == raw && h + [] + raw == h + raw;
    SameBuffer(look, NEW, Arrival(h + raw, false), d, Arrival(raw, false));
    PassIs(look, h, d, [], [], Arrival(raw, false));
    assert [] + b == b && h + b + [] == h + b;
  }

  /** An empty message, and a chunk of one octet later: it becomes the body of a second message. */
  lemma LateChunkExample(look: Look, h: seq<byte>)
    requires ChunkedHeader(look, h)
    ensures var d := Serve(look, NEW, [Arrival(h + EncodeChunk([]), false), Arrival(EncodeChunk([65]), false)]);
            d.requests == [[]] && d.buf == h + [65] && d.bodyLen == 1
  {
    hide Reassemble, ChunkedHeader, Receive, HandleHead, EncodeChunk;
    var a, late := Arrival(h + EncodeChunk([]), false), Arrival(EncodeChunk([65]), false);
    assert EncodeChunks([]) + EncodeChunk([]) == EncodeChunk([]) && Concat<byte>([]) == [] && (h + [])[0..] == h;
    AtOnce(look, h, []);
    var d := Receive(look, NEW, a);
    TwoArrivals(look, a, late);
    ChunkOfA();
    assert h + [] + [] == h && [] + late.data == late.data;
    PassIs(look, h, d, [], [], late);
    assert [] + [65] == [65] && h + [65] + [] == h + [65];
  }

  lemma TwoArrivals(look: Look, a: Arrival, b: Arrival)
    ensures Serve(look, NEW, [a, b]) == Receive(look, Receive(look, NEW, a), b)
  {
    hide Receive;
    assert [a, b][..1] == [a] && [a][..0] == [];
    assert Serve(look, NEW, [a]) == Receive(look, Serve(look, NEW, []), a);
  }

  predicate Letters(b: seq<byte>) {
    forall i :: 0 <= i < |b| ==> 65 <= b[i] <= 90
  }

  lemma {:induction false} NoHeaderIn(b: seq<byte>, i: nat)
    requires Letters(b) && i <= |b|
    ensures LengthFrom(b + [49, 13, 10, 65, 13, 10], i) == 0
    decreases |b| - i
  {
    var s := b + [49, 13, 10, 65, 13, 10];
    if i == |b| {
      assert s[i..] == [49, 13, 10, 65, 13, 10];
      assert forall k :: i <= k < |s| ==> s[k] == s[i..][k - i];
      assert LengthFrom(s, i + 6) == 0 && LengthFrom(s, i + 5) == 0 && LengthFrom(s, i + 4) == 0;
      assert LengthFrom(s, i + 3) == 0 && LengthFrom(s, i + 2) == 0 && LengthFrom(s, i + 1) == 0;
    } else {
      NoHeaderIn(b, i + 1);
    }
  }

  /** A message of letters at least as long as its header, and a chunk of one octet later: the end of
      the body is left in front, no header is found, and nothing more is ever made of it. */
  lemma StrandedExample(look: Look, h: seq<byte>, b: seq<byte>)
    requires ChunkedHeader(look, h) && Letters(b) && |h| <= |b| && Addressable(b) && |h| + 6 < MAX_REQUEST_SIZE
    ensures var late := EncodeChunk([65]);
            var d := Serve(look, NEW, [Arrival(h + (EncodeChunk(b) + EncodeChunk([])), false), Arrival(late, false)]);
            d.requests == [b] && d.bodyLen == |b| && d.buf == b[|b| - |h|..] + late
  {
    hide Reassemble, ChunkedHeader, Receive, EncodeChunk;
    var a, late := Arrival(h + (EncodeChunk(b) + EncodeChunk([])), false), Arrival(EncodeChunk([65]), false);
    NotEmpty(look, h);
    assert EncodeChunks([b]) == EncodeChunk(b) by {
      assert [b][1..] == [] && EncodeChunk(b) + [] == EncodeChunk(b);
    }
    assert Concat([b]) == b by { assert [b][1..] == [] && b + [] == b; }
    AtOnce(look, h, [b]);
    var d, left := Receive(look, NEW, a), b[|b| - |h|..];
    assert (h + b)[|b|..] == left;
    TwoArrivals(look, a, late);
    ChunkOfA();
    NoHeaderIn(left, 0);
    NotFound(look, d, late);
  }

  lemma NotFound(look: Look, d: Connection, a: Arrival)
    requires !d.failed && !d.closing && RequestLen(d.buf + a.data) == 0 && |d.buf + a.data| < MAX_REQUEST_SIZE
    ensures Receive(look, d, a) == d.(buf := d.buf + a.data)
  {
  }

  // ----- a message with its length in the header, cut anywhere

  ghost predicate LengthHeader(look: Look, h: seq<byte>, n: nat) {
    RequestLen(h) == |h| && 0 < |h| <= 8192 && look(h) == Head(false, Some(n))
  }

  lemma WholeStep(look: Look, h: seq<byte>, b: seq<byte>, u: seq<byte>, a: Arrival)
    requires LengthHeader(look, h, |b|) && (u + a.data <= h + b || h + b <= u + a.data)
    ensures Receive(look, NEW.(buf := u), a) ==
              if |u + a.data| < |h + b| then NEW.(buf := u + a.data)
              else NEW.(requests := [b], buf := (u + a.data)[|h + b|..])
  {
    hide RequestLen;
    var t := u + a.data;
    if |t| < |h| {
      HeaderFound(h, []);
      assert t < h;
    } else {
      HeaderFound(h, t[|h|..]);
      assert t == h + t[|h|..] && t[..|h|] == h;
      if |t| >= |h + b| {
        assert t[..|h + b|] == h + b && t[|h|..|h| + |b|] == b;
      }
    }
  }

  /** Before the last octet of the body is there, what arrives is only kept. */
  lemma {:induction false} WholeIsAwaited(look: Look, h: seq<byte>, b: seq<byte>, arrivals: seq<Arrival>)
    requires LengthHeader(look, h, |b|) && Received(arrivals) < h + b
    ensures Serve(look, NEW, arrivals) == NEW.(buf := Received(arrivals))
  {
    hide LengthHeader, Receive;
    if arrivals != [] {
      var before, last := arrivals[..|arrivals| - 1], arrivals[|arrivals| - 1];
      assert Received(before) == Received(arrivals)[..|Received(before)|];
      assert Received(arrivals) == Received(before) + last.data;
      WholeIsAwaited(look, h, b, before);
      WholeStep(look, h, b, Received(before), last);
    }
  }

  /** With it there is one request, its body is exactly the octets sent, and what arrived behind them is
      left in the buffer. */
  lemma WholeIsReceived(look: Look, h: seq<byte>, b: seq<byte>, t: seq<byte>, arrivals: seq<Arrival>)
    requires LengthHeader(look, h, |b|) && arrivals != [] && Received(arrivals) == h + b + t
    requires |Received(arrivals[..|arrivals| - 1])| < |h + b|
    ensures Serve(look, NEW, arrivals) == NEW.(requests := [b], buf := t)
  {
    hide LengthHeader, Receive;
    var before, last := arrivals[..|arrivals| - 1], arrivals[|arrivals| - 1];
    var u := Received(before);
    assert u == Received(arrivals)[..|u|] == (h + b)[..|u|];
    WholeIsAwaited(look, h, b, before);
    WholeStep(look, h, b, u, last);
    assert (h + b + t)[|h + b|..] == t;
  }

  /** A header that gives both a length and chunks. Without a whole chunk yet, the message is over when so many
      octets are there as the header says, and its body is those octets, size lines and all; with one, it is
      over when the data of the chunks and what is left over are that many. */
  lemma ChunksAndLength(look: Look, c: Connection, h: seq<byte>, raw: seq<byte>, n: nat, a: Arrival)
    requires RequestLen(h) == |h| > 0 && look(h) == Head(true, Some(n))
    requires c.bodyLen == 0 && !c.failed && !c.closing && c.buf + a.data == h + raw && !Reassemble(raw).done
    ensures var r, d := Reassemble(raw), Receive(look, c, a);
            var kept := if a.deleteChunk then [] else r.body;
            if r.chunks == 0 then
              if n <= |raw| then d.requests == c.requests + [raw[..n]] && d.buf == raw[n..]
              else d == c.(buf := h + raw)
            else if n <= |kept + r.rest| then
              d.requests == c.requests + [kept] && d.buf == (kept + r.rest)[n..]
            else d.requests == c.requests && d.buf == h + kept + r.rest && d.bodyLen == |kept|
  {
    hide RequestLen, Reassemble, HandleHead;
    HeaderFound(h, raw);
    assert (h + raw)[..|h|] == h;
    HandleBoth(c.(buf := h + raw), h, raw, n, a.deleteChunk);
  }

  lemma HandleBoth(c: Connection, h: seq<byte>, raw: seq<byte>, n: nat, deleteChunk: bool)
    requires c.bodyLen == 0 && c.buf == h + raw && !Reassemble(raw).done
    ensures var r, d := Reassemble(raw), HandleHead(c, |h|, Head(true, Some(n)), deleteChunk);
            var kept := if deleteChunk then [] else r.body;
            if r.chunks == 0 then
              if n <= |raw| then d.requests == c.requests + [raw[..n]] && d.buf == raw[n..] else d == c
            else if n <= |kept + r.rest| then
              d.requests == c.requests + [kept] && d.buf == (kept + r.rest)[n..]
            else d.requests == c.requests && d.buf == h + kept + r.rest && d.bodyLen == |kept|
  {
    hide Reassemble, Collapse, HandleWhole;
    var r := Reassemble(raw);
    assert Unparsed(c, |h|) == raw by {
      assert h + [] + raw == h + raw;
      Slices(h, [], raw);
    }
    if r.chunks == 0 {
      CollapseNothing(c, |h|, r, deleteChunk);
      assert h + [] + raw == h + raw;
      WholeBody(c, h, [], raw, n, n);
      assert [] + raw == raw;
    } else {
      var kept := CollapseBoth(c, h, raw, deleteChunk);
      WholeBody(Collapse(c, |h|, r, deleteChunk), h, kept, r.rest, |kept|, n);
    }
  }

  lemma CollapseNothing(c: Connection, len: nat, r: Reassembly, deleteChunk: bool)
    requires len + c.bodyLen <= |c.buf| && r.chunks == 0
    ensures Collapse(c, len, r, deleteChunk) == c
  {
  }

  lemma CollapseBoth(c: Connection, h: seq<byte>, raw: seq<byte>, deleteChunk: bool) returns (kept: seq<byte>)
    requires c.bodyLen == 0 && c.buf == h + raw && Reassemble(raw).chunks > 0
    ensures var r := Reassemble(raw);
            var d := Collapse(c, |h|, r, deleteChunk);
            kept == (if deleteChunk then [] else r.body)
            && d.buf == h + kept + r.rest && d.bodyLen == |kept| && d.requests == c.requests
  {
    hide Reassemble;
    var r := Reassemble(raw);
    kept := if deleteChunk then [] else r.body;
    assert h + [] + raw == h + raw;
    Slices(h, [], raw);
    SettledIs(Session(c.gone, [], raw), r, deleteChunk);
    assert Body(c, |h|) == [] && Unparsed(c, |h|) == raw && [] + r.body == r.body;
  }

  lemma WholeBody(d: Connection, h: seq<byte>, x: seq<byte>, y: seq<byte>, size: nat, n: nat)
    requires d.buf == h + x + y && (n <= |x + y| ==> size <= |x + y|)
    ensures var e := HandleWhole(d, |h|, size, Some(n));
            if n <= |x + y| then e.requests == d.requests + [(x + y)[..size]] && e.buf == (x + y)[n..] else e == d
  {
    assert h + x + y == h + (x + y);
    var t := x + y;
    assert n <= |t| ==> (h + t)[|h|..|h| + size] == t[..size] && (h + t)[|h| + n..] == t[n..];
  }

  // ----- what the connection refuses

  /** A buffer without a header closes the connection from 8192 octets on; an octet that is not text, or a
      header that cannot be parsed, closes it at once. Nothing is handed over. */
  lemma Refuses(look: Look, c: Connection, a: Arrival)
    requires !c.failed && !c.closing
    ensures var s := c.buf + a.data;
            var n := RequestLen(s);
            && (n == 0 ==> Receive(look, c, a) == c.(buf := s, closing := |s| >= 8192))
            && (n == -1 ==> Receive(look, c, a) == c.(buf := s, closing := true))
            && (n > 0 && look(s[..n]).Malformed? ==> Receive(look, c, a) == c.(buf := s, closing := true))
  {
    hide RequestLen;
  }

  /** And from then on nothing that arrives is looked at. */
  lemma {:induction false} RefusedStays(look: Look, c: Connection, late: seq<Arrival>)
    requires c.closing || c.failed
    ensures Serve(look, c, late) == c
  {
    if late != [] {
      RefusedStays(look, c, late[..|late| - 1]);
    }
  }

  // ----- the handler, in place

  /** No chunk size that the event comes to overflows size_t. */
  predicate Tame(look: Look, c: Connection, a: Arrival) {
    var buf := c.buf + a.data;
    var len := RequestLen(buf);
    if len <= 0 || c.failed || c.closing then true
    else
      var head := look(buf[..len]);
      head.Head? && head.chunked && len + c.bodyLen <= |buf| ==> Sized(buf[len + c.bodyLen..])
  }

  lemma CollapseIs(c: Connection, len: nat, header: seq<byte>, s: Session, r: Reassembly, deleteChunk: bool)
    requires len == |header| && len + c.bodyLen <= |c.buf| && c.buf == header + s.body + s.rest
    requires s == Session(c.gone, Body(c, len), Unparsed(c, len))
    requires r.chunks == 0 ==> r == Reassembly([], s.rest, 0, false)
    ensures var t, d := Settled(s, r, deleteChunk), Collapse(c, len, r, deleteChunk);
            && d == c.(buf := header + t.body + t.rest, bodyLen := |t.body|, gone := t.gone,
                       chunks := if r.chunks == 0 then c.chunks else c.chunks + [s.body + r.body])
            && (r.chunks > 0 ==> t.rest == r.rest)
  {
    Slices(header, s.body, s.rest);
  }

  class HttpConnection {
    const recv: Mbuf
    var bodyLen: nat            // pd->chunk.body_len
    var messageBodyLen: nat     // hm->body.len
    var events: seq<seq<byte>>  // body handed over with each MG_EV_HTTP_CHUNK
    var requests: seq<seq<byte>>  // body handed over with each whole message
    var closing: bool           // MG_F_CLOSE_IMMEDIATELY
    var failed: bool            // an assertion did not hold
    ghost var gone: seq<byte>   // deleted at the handler's request so far

    ghost predicate Valid(off: nat)
      reads this, recv
    {
      recv.Valid() && off + bodyLen <= recv.len
    }

    ghost function Value(): Connection
      requires recv.Valid()
      reads this, recv, recv.buf
    {
      Connection(recv.Contents(), bodyLen, gone, events, requests, closing, failed)
    }

    /** What mg_handle_chunked sees, for a header of off bytes in front of the body. */
    ghost function State(off: nat): Session
      requires Valid(off)
      reads this, recv, recv.buf
    {
      Session(gone, recv.buf[off..off + bodyLen], recv.buf[off + bodyLen..recv.len])
    }

    constructor (recv: Mbuf)
      requires recv.Valid()
      ensures this.recv == recv && recv.Valid() && Value() == NEW.(buf := recv.Contents())
    {
      this.recv := recv;
      bodyLen, messageBodyLen, events, gone := 0, 0, [], [];
      requests, closing, failed := [], false, false;
    }

    /** mg_handle_chunked. deleteChunk is whether the handler sets MG_F_DELETE_CHUNK; message is the
        length the message is given when the zero chunk is there. */
    method HandleChunked(off: nat, deleteChunk: bool) returns (r: nat, message: Option<nat>)
      requires Valid(off) && Sized(State(off).rest)
      modifies this`bodyLen, this`messageBodyLen, this`events, this`gone, recv, recv.buf
      ensures Valid(off) && recv.buf == old(recv.buf)
      ensures State(off) == Settled(old(State(off)), Reassemble(old(State(off)).rest), deleteChunk)
      ensures recv.len <= old(recv.len)
      ensures recv.buf[..off] == old(recv.buf[..off])
      ensures r == |old(State(off)).body + Reassemble(old(State(off)).rest).body|
      ensures var parsed := Reassemble(old(State(off)).rest);
              if parsed.chunks == 0 then events == old(events) && messageBodyLen == old(messageBodyLen)
              else events == old(events) + [old(State(off)).body + parsed.body]
                   && messageBodyLen == (if deleteChunk then 0 else r)
      ensures !deleteChunk ==> recv.buf[recv.len..old(recv.len)] == Zeros(old(recv.len) - recv.len)
      ensures message == if Reassemble(old(State(off)).rest).done then Some(recv.len - off) else None
    {
      hide Reassemble, Sized, Settled, Zeros;
      ghost var parsed := Reassemble(State(off).rest);
      SettledIs(State(off), parsed, deleteChunk);
      var left, done;
      r, left, done := CompactBody(off);
      message := None;
      if off + r + left < recv.len {
        message := Deliver(off, r, left, done, deleteChunk);
      }
    }

    lemma StateIs(off: nat)
      ensures Valid(off) <==> off + bodyLen <= recv.len <= recv.buf.Length
      ensures Valid(off) ==>
        State(off) == Session(gone, recv.buf[off..off + bodyLen], recv.buf[off + bodyLen..recv.len])
    {
    }

    /** The chunks are collapsed: body octets of the body, and left unparsed ones behind them. */
    method CompactBody(off: nat) returns (body: nat, left: nat, done: bool)
      requires Valid(off) && Sized(State(off).rest)
      modifies recv.buf
      ensures off + body + left <= recv.len && recv.buf[..off] == old(recv.buf[..off])
      ensures var st := old(State(off));
              var parsed := Reassemble(st.rest);
              && (off + body + left == recv.len <==> parsed.chunks == 0)
              && (parsed.chunks == 0 ==> State(off) == st)
              && recv.buf[off..off + body] == st.body + parsed.body
              && recv.buf[off + body..off + body + left] == parsed.rest && done == parsed.done
      ensures recv.buf[off + body + left..recv.len] == Zeros(recv.len - (off + body + left))
    {
      hide *;
      ghost var st := State(off);
      StateIs(off);
      ReassembleKeeps(st.rest);
      var i;
      var blen := recv.len - off;
      body, i, done := Compact(recv.buf, off, bodyLen, blen);
      left := blen - i;
      assert st.body + [] == st.body;
      if i == body { StateIs(off); }
    }

    /** The event for a body that now has body bytes, with left unparsed bytes behind them. */
    method Deliver(off: nat, body: nat, left: nat, done: bool, deleteChunk: bool) returns (message: Option<nat>)
      requires recv.Valid() && off + body + left <= recv.len
      modifies this`bodyLen, this`messageBodyLen, this`events, this`gone, recv, recv.buf
      ensures Valid(off) && recv.buf == old(recv.buf)
      ensures State(off) ==
        var whole, rest := old(recv.buf[off..off + body]), old(recv.buf[off + body..off + body + left]);
        if deleteChunk then Session(old(gone) + whole, [], rest) else Session(old(gone), whole, rest)
      ensures recv.len == off + bodyLen + left && messageBodyLen == bodyLen
      ensures events == old(events) + [old(recv.buf[off..off + body])]
      ensures recv.buf[..off] == old(recv.buf[..off])
      ensures !deleteChunk ==> recv.buf[..] == old(recv.buf[..])
      ensures message == if done then Some(recv.len - off) else None
    {
      var handed := recv.buf[off..off + body];
      if deleteChunk {
        DropBody(recv.buf, off, body, left);
        assert recv.buf[off..off] == [];
      }
      Settle(off, body, left, deleteChunk, handed);
      message := if done then Some(bodyLen + left) else None;
    }

    /** The counters and the event once the bytes are in place. */
    method Settle(off: nat, body: nat, left: nat, deleteChunk: bool, handed: seq<byte>)
      requires recv.Valid() && off + body + left <= recv.len
      modifies this`bodyLen, this`messageBodyLen, this`events, this`gone, recv`len
      ensures recv.len == off + bodyLen + left && bodyLen == if deleteChunk then 0 else body
      ensures messageBodyLen == bodyLen && events == old(events) + [handed]
      ensures gone == if deleteChunk then old(gone) + handed else old(gone)
      ensures recv.buf[..] == old(recv.buf[..])
    {
      recv.len := off + body + left;
      bodyLen, messageBodyLen := body, body;
      events := events + [handed];
      if deleteChunk {
        gone := gone + handed;
        recv.len := recv.len - body;
        bodyLen, messageBodyLen := 0, 0;
      }
    }

    /** The same call, on the connection as a value. */
    method CollapseBody(len: nat, deleteChunk: bool) returns (message: Option<nat>)
      requires Valid(len) && Sized(State(len).rest)
      modifies this`bodyLen, this`messageBodyLen, this`events, this`gone, recv, recv.buf
      ensures Valid(len) && recv.buf == old(recv.buf)
      ensures var c := old(Value());
              var r := Reassemble(Unparsed(c, len));
              var d := Collapse(c, len, r, deleteChunk);
              && Value() == d
              && messageBodyLen == (if r.chunks > 0 then d.bodyLen else old(messageBodyLen))
              && message == if r.done then Some(d.bodyLen + |r.rest|) else None
    {
      hide *;
      Expect(len, deleteChunk);
      var n;
      n, message := CollapseState(len, deleteChunk);
    }

    /** What mg_handle_chunked is to leave. */
    lemma Expect(len: nat, deleteChunk: bool)
      requires Valid(len)
      ensures len + bodyLen <= |Value().buf|
      ensures var c, st := Value(), State(len);
              var r := Reassemble(st.rest);
              var t := Settled(st, r, deleteChunk);
              && r == Reassemble(Unparsed(c, len))
              && Collapse(c, len, r, deleteChunk) ==
                   c.(buf := recv.buf[..len] + t.body + t.rest, bodyLen := |t.body|, gone := t.gone,
                      chunks := if r.chunks == 0 then c.chunks else c.chunks + [st.body + r.body])
              && (r.chunks > 0 ==> t.rest == r.rest) && (r.done ==> r.chunks > 0)
              && (r.chunks > 0 ==> |t.body| == if deleteChunk then 0 else |st.body + r.body|)
    {
      hide Reassemble, Collapse;
      var st := State(len);
      Parts(len);
      ReassembleKeeps(st.rest);
      CollapseIs(Value(), len, recv.buf[..len], st, Reassemble(st.rest), deleteChunk);
    }

    /** The call, in terms of what it sees. */
    method CollapseState(len: nat, deleteChunk: bool) returns (n: nat, message: Option<nat>)
      requires Valid(len) && Sized(State(len).rest)
      modifies this`bodyLen, this`messageBodyLen, this`events, this`gone, recv, recv.buf
      ensures Valid(len) && recv.buf == old(recv.buf)
      ensures var st := old(State(len));
              var r := Reassemble(st.rest);
              var t := Settled(st, r, deleteChunk);
              && Value() == old(Value()).(
                   buf := old(recv.buf[..len]) + t.body + t.rest, bodyLen := |t.body|, gone := t.gone,
                   chunks := if r.chunks == 0 then old(Value()).chunks else old(Value()).chunks + [st.body + r.body])
              && messageBodyLen == (if r.chunks == 0 then old(messageBodyLen) else if deleteChunk then 0 else n)
              && n == |st.body + r.body|
              && message == if r.done then Some(|t.body| + |t.rest|) else None
    {
      hide Reassemble, Sized, Settled, Zeros;
      n, message := HandleChunked(len, deleteChunk);
      Parts(len);
    }

    /** The buffer as header, body and what is not parsed yet. */
    lemma Parts(len: nat)
      requires Valid(len)
      ensures recv.Contents() == recv.buf[..len] + State(len).body + State(len).rest
      ensures State(len) == Session(gone, Body(Value(), len), Unparsed(Value(), len))
    {
      SliceOfSlice(recv.buf[..], 0, recv.len, len, len + bodyLen);
      SliceOfSlice(recv.buf[..], 0, recv.len, len + bodyLen, recv.len);
      Sections(recv.buf[..], len, len + bodyLen, recv.len);
    }

    lemma Within(i: nat, j: nat)
      requires recv.Valid() && i <= j <= recv.len
      ensures recv.Contents()[i..j] == recv.buf[i..j]
    {
      SliceOfSlice(recv.buf[..], 0, recv.len, i, j);
    }

    method HandOverBody(len: nat, size: nat)
      requires recv.Valid() && len + messageBodyLen <= recv.len && size <= recv.len
      modifies this`requests, recv, recv.buf
      ensures recv.Valid() && Value() == HandOver(old(Value()), len, messageBodyLen, size)
    {
      Within(len, len + messageBodyLen);
      requests := requests + [recv.buf[len..len + messageBodyLen]];
      recv.Remove(size);
    }

    /** If the whole message is there: the event, and what is taken off the front. */
    method TakeMessage(len: nat, message: Option<nat>)
      requires recv.Valid() && (message.Some? && message.value <= recv.len ==> len + messageBodyLen <= recv.len)
      modifies this`requests, recv, recv.buf
      ensures recv.Valid()
      ensures Value() ==
        if message.Some? && message.value <= |old(Value()).buf|
        then HandOver(old(Value()), len, messageBodyLen, message.value) else old(Value())
    {
      hide HandOver;
      if message.Some? && message.value <= recv.len {
        HandOverBody(len, message.value);
      }
    }

    /** What the handler does behind a header of len bytes. */
    method HandleHeader(len: nat, head: Head, deleteChunk: bool)
      requires recv.Valid() && len <= recv.len && head.Head?
      requires head.chunked && Valid(len) ==> Sized(State(len).rest)
      modifies this, recv, recv.buf
      ensures recv.Valid() && Value() == HandleHead(old(Value()), len, head, deleteChunk)
    {
      hide Reassemble, Sized, Collapse, HandOver;
      var message: Option<nat> := None;
      if head.content.Some? {
        messageBodyLen, message := head.content.value, Some(len + head.content.value);
      }
      if head.chunked {
        if len + bodyLen > recv.len {
          failed := true;
          return;
        }
        var size := CollapseBody(len, deleteChunk);
        if size.Some? {
          message := size;
        }
      }
      TakeMessage(len, message);
    }

    /** The receive event of mg_http_handler, with the bytes that came from the socket. */
    method ReceiveEvent(look: Look, a: Arrival)
      requires recv.Valid() && Tame(look, Value(), a)
      modifies this, recv, recv.buf
      ensures recv.Valid() && Value() == Receive(look, old(Value()), a)
    {
      hide RequestLen, HandleHead, Sized;
      if failed || closing { return; }
      recv.Append(a.data);
      var len := GetRequestLen(recv.buf, recv.len);
      if len == 0 {
        closing := recv.len >= MAX_REQUEST_SIZE;
        return;
      }
      if len < 0 {
        closing := true;
        return;
      }
      assert recv.buf[..len] == recv.Contents()[..len];
      var head := look(recv.buf[..len]);
      if head.Malformed? {
        closing := true;
        return;
      }
      if len + bodyLen <= recv.len { Parts(len); }
      HandleHeader(len, head, a.deleteChunk);
    }
  }
}
