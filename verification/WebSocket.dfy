/** WebSocket framing (section 5.2 of RFC 6455): frames appended to a send buffer, masked in
    place, and the loop that delivers every complete frame of a receive buffer. */
module WebSocket {
  import opened Bytes
  import opened MbufModel
  import opened Sequences

  // ----- exclusive or, bit by bit

  function Xor(k: nat, a: nat, b: nat): nat {
    if k == 0 then 0 else (a + b) % 2 + 2 * Xor(k - 1, a / 2, b / 2)
  }

  function Range(k: nat): nat {
    if k == 0 then 1 else 2 * Range(k - 1)
  }

  lemma {:induction false} XorRange(k: nat, a: nat, b: nat)
    ensures Xor(k, a, b) < Range(k)
  {
    if k > 0 { XorRange(k - 1, a / 2, b / 2); }
  }

  lemma LowBit(a: nat, b: nat, high: nat)
    ensures var x := (a + b) % 2 + 2 * high;
            x / 2 == high && (x + b) % 2 == a % 2
  {
    var x := (a + b) % 2 + 2 * high;
    assert x + b == a % 2 + 2 * (high + b + a / 2 - (a + b) / 2);
  }

  lemma {:induction false} XorTwice(k: nat, a: nat, b: nat)
    requires a < Range(k)
    ensures Xor(k, Xor(k, a, b), b) == a
  {
    if k > 0 {
      LowBit(a, b, Xor(k - 1, a / 2, b / 2));
      XorTwice(k - 1, a / 2, b / 2);
    }
  }

  function Xor8(a: byte, b: byte): byte {
    XorRange(8, a, b);
    assert Range(8) == 0x100 by {
      assert Range(4) == 16;
    }
    Xor(8, a, b)
  }

  /** Exclusive or of two octets, binary digit by binary digit. */
  lemma Xor8Bits(a: byte, b: byte, i: nat)
    requires i < 8
    ensures Bit(Xor8(a, b), i) == 1 <==> Bit(a, i) != Bit(b, i)
  {
    XorBits(8, a, b, i);
  }

  lemma Xor8Twice(a: byte, b: byte)
    ensures Xor8(Xor8(a, b), b) == a
  {
    assert Range(8) == 0x100 by {
      assert Range(4) == 16;
    }
    XorTwice(8, a, b);
  }

  /** The i-th binary digit. */
  function Bit(n: nat, i: nat): nat {
    if i == 0 then n % 2 else Bit(n / 2, i - 1)
  }

  /** An octet is made of its eight. */
  lemma BitsOf(b: byte)
    ensures Bit(b, 0) + 2 * Bit(b, 1) + 4 * Bit(b, 2) + 8 * Bit(b, 3)
            + 16 * (Bit(b, 4) + 2 * Bit(b, 5) + 4 * Bit(b, 6) + 8 * Bit(b, 7)) == b
  {
    hide Bit;
    FourBits(b);
    FourBits(b / 16);
    Shift(b, 4);
    Shift(b, 5);
    Shift(b, 6);
    Shift(b, 7);
  }

  lemma FourBits(n: nat)
    ensures Bit(n, 0) + 2 * Bit(n, 1) + 4 * Bit(n, 2) + 8 * Bit(n, 3) == n % 16
  {
    hide Bit;
    BitStep(n, 1);
    BitStep(n, 2);
    BitStep(n / 2, 1);
    BitStep(n, 3);
    BitStep(n / 2, 2);
    BitStep(n / 2 / 2, 1);
    LastBit(n);
    LastBit(n / 2);
    LastBit(n / 2 / 2);
    LastBit(n / 2 / 2 / 2);
    Halves(n);
  }

  lemma Halves(n: nat)
    ensures n % 2 + 2 * (n / 2 % 2) + 4 * (n / 2 / 2 % 2) + 8 * (n / 2 / 2 / 2 % 2) == n % 16
  {
    var a, b, c, q := n / 2, n / 2 / 2, n / 2 / 2 / 2, n / 2 / 2 / 2 / 2;
    assert n == 2 * a + n % 2 && a == 2 * b + a % 2 && b == 2 * c + b % 2 && c == 2 * q + c % 2;
    var r := n % 2 + 2 * (a % 2) + 4 * (b % 2) + 8 * (c % 2);
    assert n == 16 * q + r && 0 <= r < 16;
  }

  lemma LastBit(n: nat)
    ensures Bit(n, 0) == n % 2
  {
  }

  lemma BitStep(n: nat, i: nat)
    requires i > 0
    ensures Bit(n, i) == Bit(n / 2, i - 1)
  {
  }

  lemma Shift(n: nat, i: nat)
    requires i >= 4
    ensures Bit(n, i) == Bit(n / 16, i - 4)
  {
    hide Bit;
    BitStep(n, i);
    BitStep(n / 2, i - 1);
    BitStep(n / 2 / 2, i - 2);
    BitStep(n / 2 / 2 / 2, i - 3);
    assert n / 2 / 2 / 2 / 2 == n / 16;
  }

  /** A binary digit of the result is set exactly if it is set in one operand and not in the other. */
  lemma {:induction false} XorBits(k: nat, a: nat, b: nat, i: nat)
    requires i < k
    ensures Bit(Xor(k, a, b), i) == 1 <==> Bit(a, i) != Bit(b, i)
  {
    hide Xor;
    var high := Xor(k - 1, a / 2, b / 2);
    XorStep(k, a, b);
    LowBit(a, b, high);
    if i > 0 {
      XorBits(k - 1, a / 2, b / 2, i - 1);
    }
  }

  lemma XorStep(k: nat, a: nat, b: nat)
    requires k > 0
    ensures Xor(k, a, b) == (a + b) % 2 + 2 * Xor(k - 1, a / 2, b / 2)
    ensures Xor(k, a, b) % 2 == 1 <==> a % 2 != b % 2
  {
    Parity((a + b) % 2, Xor(k - 1, a / 2, b / 2));
    Parity(a % 2 + b % 2, a / 2 + b / 2);
    assert a + b == a % 2 + b % 2 + 2 * (a / 2 + b / 2);
  }

  lemma Parity(x: nat, y: nat)
    ensures (x + 2 * y) % 2 == x % 2
  {
  }

  /** data with the four mask octets applied in turn; no mask leaves it alone. */
  function Masked(mask: seq<byte>, data: seq<byte>): (r: seq<byte>)
    requires |mask| == 0 || |mask| == 4
    ensures |r| == |data|
  {
    if mask == [] then data else seq(|data|, i requires 0 <= i < |data| => Xor8(data[i], mask[i % 4]))
  }

  lemma MaskedTwice(mask: seq<byte>, data: seq<byte>)
    requires |mask| == 0 || |mask| == 4
    ensures Masked(mask, Masked(mask, data)) == data
  {
    hide Xor8;
    if mask != [] {
      forall i | 0 <= i < |data| ensures Masked(mask, Masked(mask, data))[i] == data[i] {
        Xor8Twice(data[i], mask[i % 4]);
      }
    }
  }

  // ----- what a receive buffer holds

  datatype Scan =
    | Incomplete
    | Wraps  // header and payload length together overflow the 64-bit frame length
    | Frame(headerLen: nat, maskLen: nat, dataLen: nat)

  function Extent(buf: seq<byte>): (r: (nat, nat, nat))
    requires |buf| >= 2
    ensures r.0 == 0 ==> r.2 == 0
    ensures (r.0 > 0 ==> r.0 >= 2 + r.1) && (r.1 == 0 || r.1 == 4)
  {
    var len, maskLen := buf[1] % 128, if buf[1] >= 128 then 4 else 0;
    if len < 126 && |buf| >= maskLen then (2 + maskLen, maskLen, len)
    else if len == 126 && |buf| >= 4 + maskLen then (4 + maskLen, maskLen, Get16(buf[2], buf[3]))
    else if |buf| >= 10 + maskLen then
      (10 + maskLen, maskLen, Get32(buf[2..6]) * 0x1_0000_0000 + Get32(buf[6..10]))
    else (0, maskLen, 0)
  }

  function ScanFrame(buf: seq<byte>): (r: Scan)
    ensures r.Frame? ==>
      2 + r.maskLen <= r.headerLen && r.headerLen + r.dataLen <= |buf| && (r.maskLen == 0 || r.maskLen == 4)
  {
    if |buf| < 2 then Incomplete
    else
      var (headerLen, maskLen, dataLen) := Extent(buf);
      if headerLen + dataLen >= SIZE_LIMIT then Wraps
      else if headerLen == 0 || headerLen + dataLen > |buf| then Incomplete
      else Frame(headerLen, maskLen, dataLen)
  }

  predicate IsFragment(flags: byte) {
    flags < 128 || flags % 16 == 0
  }

  /** What the handler is called with: a control frame when flag bit 0x8 is set. */
  datatype Event = DataFrame(flags: byte, data: seq<byte>) | ControlFrame(flags: byte, data: seq<byte>)

  function EventOf(flags: byte, data: seq<byte>): Event {
    if flags / 8 % 2 == 1 then ControlFrame(flags, data) else DataFrame(flags, data)
  }

  function Payload(buf: seq<byte>, f: Scan): seq<byte>
    requires f.Frame? && f == ScanFrame(buf)
  {
    Masked(buf[f.headerLen - f.maskLen..f.headerLen], buf[f.headerLen..f.headerLen + f.dataLen])
  }

  datatype Delivery = Delivery(events: seq<Event>, rest: seq<byte>)

  function DeliverAll(buf: seq<byte>): Delivery {
    match ScanFrame(buf)
    case Frame(h, m, n) =>
      var d := DeliverAll(buf[h + n..]);
      Delivery([EventOf(buf[0], Payload(buf, Frame(h, m, n)))] + d.events, d.rest)
    case _ => Delivery([], buf)
  }

  /** No frame reached has a wrapping length and, unless reassembly is switched off, none is a fragment. */
  predicate Deliverable(buf: seq<byte>, noDefrag: bool) {
    && (buf == [] || noDefrag || !IsFragment(buf[0]))
    && match ScanFrame(buf)
       case Incomplete => true
       case Wraps => false
       case Frame(h, m, n) => Deliverable(buf[h + n..], noDefrag)
  }

  lemma FrontFrame(buf: seq<byte>, noDefrag: bool)
    requires Deliverable(buf, noDefrag)
    ensures |buf| < 2 ==> ScanFrame(buf) == Incomplete
    ensures |buf| >= 2 ==>
      var (h, m, n) := Extent(buf);
      if 0 < h + n <= |buf| then ScanFrame(buf) == Frame(h, m, n) && Deliverable(buf[h + n..], noDefrag)
      else ScanFrame(buf) == Incomplete
  {
    hide Extent;
  }

  lemma ScanStable(s: seq<byte>, t: seq<byte>)
    ensures ScanFrame(s) != Incomplete ==> ScanFrame(s + t) == ScanFrame(s)
  {
    if |s| >= 2 && ScanFrame(s) != Incomplete {
      var u := s + t;
      assert u[1] == s[1];
      if |s| >= 10 {
        assert u[2..6] == s[2..6] && u[6..10] == s[6..10];
      }
    }
  }

  // ----- any cutting

  lemma PayloadStable(x: seq<byte>, y: seq<byte>)
    requires ScanFrame(x).Frame? && ScanFrame(x + y) == ScanFrame(x)
    ensures var f := ScanFrame(x);
            Payload(x + y, f) == Payload(x, f) && (x + y)[0] == x[0]
            && (x + y)[f.headerLen + f.dataLen..] == x[f.headerLen + f.dataLen..] + y
  {
    hide ScanFrame, Masked;
    var f := ScanFrame(x);
    assert (x + y)[f.headerLen - f.maskLen..f.headerLen] == x[f.headerLen - f.maskLen..f.headerLen];
    assert (x + y)[f.headerLen..f.headerLen + f.dataLen] == x[f.headerLen..f.headerLen + f.dataLen];
  }

  /** Delivering x and then, behind what is left of it, y, is delivering both at once. */
  lemma {:induction false} DeliverAppend(x: seq<byte>, y: seq<byte>)
    ensures var first := DeliverAll(x);
            var next := DeliverAll(first.rest + y);
            DeliverAll(x + y) == Delivery(first.events + next.events, next.rest)
    decreases |x|
  {
    hide ScanFrame, Payload;
    ScanStable(x, y);
    var f := ScanFrame(x);
    if f.Frame? {
      PayloadStable(x, y);
      var tail := x[f.headerLen + f.dataLen..];
      DeliverAppend(tail, y);
      Associate([EventOf(x[0], Payload(x, f))], DeliverAll(tail).events, DeliverAll(DeliverAll(tail).rest + y).events);
    } else {
      assert [] + DeliverAll(x + y).events == DeliverAll(x + y).events;
    }
  }

  /** What the delivery loop can handle at once it can handle in pieces. */
  lemma {:induction false} DeliverableAppend(x: seq<byte>, y: seq<byte>, noDefrag: bool)
    requires Deliverable(x + y, noDefrag)
    ensures Deliverable(x, noDefrag) && Deliverable(DeliverAll(x).rest + y, noDefrag)
    decreases |x|
  {
    hide ScanFrame, Payload;
    ScanStable(x, y);
    var f := ScanFrame(x);
    assert x != [] ==> (x + y)[0] == x[0];
    if f.Frame? {
      PayloadStable(x, y);
      DeliverableAppend(x[f.headerLen + f.dataLen..], y, noDefrag);
    }
  }

  /** All deliveries of a connection that receives these octets one arrival after the other. */
  function DeliverArrivals(arrivals: seq<seq<byte>>): Delivery {
    if arrivals == [] then Delivery([], [])
    else
      var d := DeliverArrivals(arrivals[..|arrivals| - 1]);
      var e := DeliverAll(d.rest + arrivals[|arrivals| - 1]);
      Delivery(d.events + e.events, e.rest)
  }

  /** However a stream is cut into arrivals, the handler sees what it would see of the whole. */
  lemma {:induction false} SplitInvariance(arrivals: seq<seq<byte>>)
    ensures DeliverArrivals(arrivals) == DeliverAll(Concat(arrivals))
  {
    hide DeliverAll, Concat;
    if arrivals == [] {
      NothingArrived();
    } else {
      var before, last := arrivals[..|arrivals| - 1], arrivals[|arrivals| - 1];
      SplitInvariance(before);
      assert arrivals == before + [last];
      ConcatAppend(before, last);
      DeliverAppend(Concat(before), last);
    }
  }

  lemma NothingArrived()
    ensures DeliverAll(Concat([])) == Delivery([], [])
  {
  }

  // ----- the sender

  /** op may carry WEBSOCKET_DONT_FIN (0x100); mask is empty on the server side. */
  datatype Sent = Sent(op: nat, data: seq<byte>, mask: seq<byte>)

  predicate Sendable(f: Sent) {
    (|f.mask| == 0 || |f.mask| == 4) && |f.data| + 14 < SIZE_LIMIT
  }

  function Flags(op: nat): byte {
    (if op / 0x100 % 2 == 1 then 0 else 0x80) + op % 16
  }

  function LengthOctets(len: nat, maskBit: byte): (r: seq<byte>)
    requires len < SIZE_LIMIT && (maskBit == 0 || maskBit == 128)
    ensures |r| == if len < 126 then 1 else if len < 65535 then 3 else 9
  {
    if len < 126 then [len + maskBit]
    else if len < 65535 then [126 + maskBit] + Be16(len)
    else [127 + maskBit] + Be32(len / 0x1_0000_0000) + Be32(len % 0x1_0000_0000)
  }

  function Header(f: Sent): (r: seq<byte>)
    requires Sendable(f)
    ensures |r| >= 2
  {
    [Flags(f.op)] + LengthOctets(|f.data|, if f.mask == [] then 0 else 128) + f.mask
  }

  function EncodeFrame(f: Sent): seq<byte>
    requires Sendable(f)
  {
    Header(f) + Masked(f.mask, f.data)
  }

  function EncodeFrames(fs: seq<Sent>): seq<byte>
    requires forall k :: 0 <= k < |fs| ==> Sendable(fs[k])
  {
    if fs == [] then [] else EncodeFrame(fs[0]) + EncodeFrames(fs[1..])
  }

  lemma ExtentShort(buf: seq<byte>, len: nat, maskLen: nat)
    requires |buf| >= 2 + maskLen && len < 126 && (maskLen == 0 || maskLen == 4)
    requires buf[1] == len + 32 * maskLen
    ensures Extent(buf) == (2 + maskLen, maskLen, len)
  {
    hide Get16, Get32;
    assert buf[1] % 128 == len;
  }

  lemma ExtentMedium(buf: seq<byte>, len: uint16, maskLen: nat)
    requires |buf| >= 4 + maskLen && (maskLen == 0 || maskLen == 4)
    requires buf[1] == 126 + 32 * maskLen && buf[2..4] == Be16(len)
    ensures Extent(buf) == (4 + maskLen, maskLen, len)
  {
    hide Be16, Get16;
    assert buf[2] == buf[2..4][0] && buf[3] == buf[2..4][1];
    Be16RoundTrip(len);
  }

  lemma ExtentLong(buf: seq<byte>, len: nat, maskLen: nat)
    requires |buf| >= 10 + maskLen && len < SIZE_LIMIT && (maskLen == 0 || maskLen == 4)
    requires buf[1] == 127 + 32 * maskLen
    requires buf[2..6] == Be32(len / 0x1_0000_0000) && buf[6..10] == Be32(len % 0x1_0000_0000)
    ensures Extent(buf) == (10 + maskLen, maskLen, len)
  {
    hide Be32, Get32;
    Be32RoundTrip(len / 0x1_0000_0000);
    Be32RoundTrip(len % 0x1_0000_0000);
  }

  lemma ExtentOfHeader(f: Sent, t: seq<byte>)
    requires Sendable(f) && |t| >= |f.data|
    ensures var buf := Header(f) + t;
            |buf| >= 2 && Extent(buf) == (|Header(f)|, |f.mask|, |f.data|)
  {
    hide Be32, Be16, Extent;
    var len, m := |f.data|, |f.mask|;
    var o := LengthOctets(len, if f.mask == [] then 0 else 128);
    var buf := Header(f) + t;
    assert buf == [Flags(f.op)] + o + (f.mask + t);
    assert buf[1] == o[0] && buf[1..1 + |o|] == o;
    if len < 126 {
      ExtentShort(buf, len, m);
    } else if len < 65535 {
      assert buf[2..4] == o[1..3] == Be16(len);
      ExtentMedium(buf, len, m);
    } else {
      var hi, lo := Be32(len / 0x1_0000_0000), Be32(len % 0x1_0000_0000);
      assert buf[2..6] == o[1..5] == hi;
      assert buf[6..10] == o[5..9] == lo;
      ExtentLong(buf, len, m);
    }
  }

  /** Whatever follows it in the buffer, a sent frame is delivered as it was sent. */
  lemma ScanEncoded(f: Sent, t: seq<byte>)
    requires Sendable(f)
    ensures var buf, h := EncodeFrame(f) + t, |Header(f)|;
            ScanFrame(buf) == Frame(h, |f.mask|, |f.data|)
            && Payload(buf, ScanFrame(buf)) == f.data && buf[0] == Flags(f.op) && buf[h + |f.data|..] == t
  {
    hide LengthOctets, Masked, Extent;
    var buf, h := EncodeFrame(f) + t, |Header(f)|;
    assert buf == Header(f) + (Masked(f.mask, f.data) + t);
    ExtentOfHeader(f, Masked(f.mask, f.data) + t);
    assert buf[h..h + |f.data|] == Masked(f.mask, f.data);
    assert buf[h - |f.mask|..h] == f.mask;
    MaskedTwice(f.mask, f.data);
  }

  /** A proper prefix of a sent frame is left alone. */
  lemma ScanPartial(f: Sent, p: seq<byte>)
    requires Sendable(f) && p < EncodeFrame(f)
    ensures ScanFrame(p) == Incomplete
  {
    hide ScanFrame, EncodeFrame, Header;
    var t := EncodeFrame(f)[|p|..];
    assert p + t == EncodeFrame(f) && EncodeFrame(f) + [] == EncodeFrame(f);
    ScanStable(p, t);
    ScanEncoded(f, []);
  }

  // ----- the layout of section 5.2 of RFC 6455

  /** How many octets of length follow the second octet of a frame. */
  function LengthSize(b: byte): nat {
    if b % 128 == 127 then 8 else if b % 128 == 126 then 2 else 0
  }

  /** The payload length: in the low seven bits, or in the octets that follow, most significant first. */
  function LengthGiven(buf: seq<byte>): nat
    requires |buf| >= 2 && |buf| >= 2 + LengthSize(buf[1])
  {
    if buf[1] % 128 < 126 then buf[1] % 128 else Number(buf[2..2 + LengthSize(buf[1])])
  }

  /** For every buffer: a frame is there exactly if its header and its payload are. */
  lemma FrameLayout(buf: seq<byte>)
    ensures |buf| < 2 ==> ScanFrame(buf) == Incomplete
    ensures |buf| >= 2 ==>
      var m := if buf[1] >= 128 then 4 else 0;
      var h := 2 + LengthSize(buf[1]) + m;
      ScanFrame(buf) ==
        if |buf| < h then Incomplete
        else if h + LengthGiven(buf) >= SIZE_LIMIT then Wraps
        else if |buf| < h + LengthGiven(buf) then Incomplete
        else Frame(h, m, LengthGiven(buf))
  {
    hide Get32, Get16, Number;
    if |buf| >= 2 {
      var m := if buf[1] >= 128 then 4 else 0;
      if buf[1] % 128 == 126 && |buf| >= 4 + m {
        BigEndian16(0, buf[2], buf[3]);
        assert buf[2..4] == [buf[2], buf[3]];
      } else if buf[1] % 128 == 127 && |buf| >= 10 + m {
        BigEndian32(0, buf[2..6]);
        BigEndian32(0, buf[6..10]);
        BigEndian64(buf[2..10]);
        assert buf[2..10][..4] == buf[2..6] && buf[2..10][4..] == buf[6..10];
      }
    }
  }

  /** What is handed over of the frame in front: the octet of the flags, whether the opcode is one of
      a control frame, and the payload, each octet exclusive-or the octet of the mask in turn. */
  lemma FirstEvent(buf: seq<byte>)
    requires ScanFrame(buf).Frame?
    ensures var f, d := ScanFrame(buf), DeliverAll(buf);
            && d.events != [] && d.events[0].flags == buf[0] && |d.events[0].data| == f.dataLen
            && (d.events[0].ControlFrame? <==> buf[0] % 16 >= 8)
            && (forall i :: 0 <= i < f.dataLen ==>
                  d.events[0].data[i] ==
                    if buf[1] < 128 then buf[f.headerLen + i] else Xor8(buf[f.headerLen + i], buf[f.headerLen - 4 + i % 4]))
  {
    hide Xor8, ScanFrame, Masked, DeliverAll;
    var f := ScanFrame(buf);
    FrameLayout(buf);
    FirstDelivered(buf);
    MaskOctets(buf[f.headerLen - f.maskLen..f.headerLen], buf[f.headerLen..f.headerLen + f.dataLen]);
  }

  lemma FirstDelivered(buf: seq<byte>)
    requires ScanFrame(buf).Frame?
    ensures var d := DeliverAll(buf); d.events != [] && d.events[0] == EventOf(buf[0], Payload(buf, ScanFrame(buf)))
  {
    hide ScanFrame, Payload, EventOf;
  }

  lemma MaskOctets(mask: seq<byte>, data: seq<byte>)
    requires |mask| == 0 || |mask| == 4
    ensures forall i :: 0 <= i < |data| ==>
      Masked(mask, data)[i] == if mask == [] then data[i] else Xor8(data[i], mask[i % 4])
  {
    hide Xor8;
  }

  /** The octets of a frame sent. */
  lemma SentLayout(f: Sent)
    requires Sendable(f)
    ensures var e, m := EncodeFrame(f), if f.mask == [] then 0 else 4;
            && |e| >= 2 && (e[0] >= 128 <==> f.op / 0x100 % 2 == 0) && e[0] % 128 == f.op % 16
            && (e[1] >= 128 <==> f.mask != []) && |e| >= 2 + LengthSize(e[1]) + m
            && LengthSize(e[1]) == (if |f.data| < 126 then 0 else if |f.data| < 65535 then 2 else 8)
            && LengthGiven(e) == |f.data|
            && var h := 2 + LengthSize(e[1]) + m;
               |e| == h + |f.data| && e[h - m..h] == f.mask
               && forall i :: 0 <= i < |f.data| ==> e[h + i] == if m == 0 then f.data[i] else Xor8(f.data[i], f.mask[i % 4])
  {
    hide Xor8, LengthSize, LengthGiven, ScanFrame, Masked, Header;
    var e, n := EncodeFrame(f), |Header(f)|;
    HeaderSize(f);
    MaskOctets(f.mask, f.data);
    assert e == Header(f) + Masked(f.mask, f.data);
    assert e[n - |f.mask|..n] == f.mask by {
      HeaderEndsInMask(f);
      assert e[..n] == Header(f);
    }
  }

  lemma HeaderEndsInMask(f: Sent)
    requires Sendable(f)
    ensures var h := Header(f); |h| >= |f.mask| && h[|h| - |f.mask|..] == f.mask
  {
    hide LengthOctets;
  }

  lemma HeaderSize(f: Sent)
    requires Sendable(f)
    ensures var e, m := EncodeFrame(f), |f.mask|;
            && |e| >= 2 && (e[0] >= 128 <==> f.op / 0x100 % 2 == 0) && e[0] % 128 == f.op % 16
            && (e[1] >= 128 <==> f.mask != []) && |e| >= 2 + LengthSize(e[1])
            && LengthSize(e[1]) == (if |f.data| < 126 then 0 else if |f.data| < 65535 then 2 else 8)
            && LengthGiven(e) == |f.data| && |Header(f)| == 2 + LengthSize(e[1]) + m
  {
    hide ScanFrame, Masked, Header, LengthGiven, LengthSize, EncodeFrame;
    var e := EncodeFrame(f);
    assert e + [] == e;
    FrameLayout(e);
    ScanEncoded(f, []);
    SecondOctet(f);
  }

  lemma SecondOctet(f: Sent)
    requires Sendable(f)
    ensures var e := EncodeFrame(f);
            |e| >= 2 && e[0] == Flags(f.op) && (e[1] >= 128 <==> f.mask != [])
            && LengthSize(e[1]) == (if |f.data| < 126 then 0 else if |f.data| < 65535 then 2 else 8)
  {
    hide Be32, Be16, Masked;
    var o := LengthOctets(|f.data|, if f.mask == [] then 0 else 128);
    assert EncodeFrame(f) == [Flags(f.op)] + o + (f.mask + Masked(f.mask, f.data));
    assert EncodeFrame(f)[1] == o[0];
  }

  /** The events are the frames sent: an opcode of 8 or more is that of a control frame. */
  predicate AsSent(fs: seq<Sent>, events: seq<Event>) {
    |events| == |fs| && forall k :: 0 <= k < |fs| ==>
      events[k] == if fs[k].op % 16 < 8 then DataFrame(Flags(fs[k].op), fs[k].data) else ControlFrame(Flags(fs[k].op), fs[k].data)
  }

  /** Frames sent back to back, then part of another: the handler sees exactly the payloads sent,
      in order, and the partial frame stays in the buffer. */
  lemma {:induction false} StreamRoundTrip(fs: seq<Sent>, next: Sent, p: seq<byte>)
    requires (forall k :: 0 <= k < |fs| ==> Sendable(fs[k])) && Sendable(next) && p < EncodeFrame(next)
    ensures var d := DeliverAll(EncodeFrames(fs) + p); d.rest == p && AsSent(fs, d.events)
  {
    hide ScanFrame, EncodeFrame, Payload, EventOf, AsSent;
    if fs == [] {
      assert EncodeFrames(fs) + p == p;
      ScanPartial(next, p);
      NoneSent();
    } else {
      var t := EncodeFrames(fs[1..]) + p;
      assert EncodeFrames(fs) + p == EncodeFrame(fs[0]) + t;
      ScanEncoded(fs[0], t);
      StreamRoundTrip(fs[1..], next, p);
      OneSent(fs, DeliverAll(t).events);
    }
  }

  lemma NoneSent()
    ensures AsSent([], [])
  {
  }

  lemma OneSent(fs: seq<Sent>, events: seq<Event>)
    requires fs != [] && AsSent(fs[1..], events)
    ensures AsSent(fs, [EventOf(Flags(fs[0].op), fs[0].data)] + events)
  {
    var all := [EventOf(Flags(fs[0].op), fs[0].data)] + events;
    assert forall k :: 0 < k < |fs| ==> fs[k] == fs[1..][k - 1] && all[k] == events[k - 1];
  }

  /** Frames with FIN set and an opcode from 1 to 15 are never taken for fragments. */
  lemma {:induction false} StreamDeliverable(fs: seq<Sent>, next: Sent, p: seq<byte>, noDefrag: bool)
    requires (forall k :: 0 <= k < |fs| ==> Sendable(fs[k])) && Sendable(next) && p < EncodeFrame(next)
    requires noDefrag || ((forall k :: 0 <= k < |fs| ==> 1 <= fs[k].op < 16) && 1 <= next.op < 16)
    ensures Deliverable(EncodeFrames(fs) + p, noDefrag)
  {
    hide ScanFrame, EncodeFrame, Payload;
    if fs == [] {
      assert EncodeFrames(fs) + p == p;
      ScanPartial(next, p);
      if p != [] {
        ScanEncoded(next, []);
        assert p[0] == (EncodeFrame(next) + [])[0];
      }
    } else {
      var t := EncodeFrames(fs[1..]) + p;
      assert EncodeFrames(fs) + p == EncodeFrame(fs[0]) + t;
      ScanEncoded(fs[0], t);
      StreamDeliverable(fs[1..], next, p, noDefrag);
    }
  }

  /** Frames sent back to back, then part of another, cut anywhere into arrivals. */
  lemma SentIsReceived(fs: seq<Sent>, next: Sent, p: seq<byte>, arrivals: seq<seq<byte>>)
    requires (forall k :: 0 <= k < |fs| ==> Sendable(fs[k])) && Sendable(next) && p < EncodeFrame(next)
    requires Concat(arrivals) == EncodeFrames(fs) + p
    ensures var d := DeliverArrivals(arrivals); d.rest == p && AsSent(fs, d.events)
  {
    hide *;
    SplitInvariance(arrivals);
    StreamRoundTrip(fs, next, p);
  }

  // ----- the connection

  /** The loop of mg_ws_mask_frame and of the receiver: every octet of a[from..to) in place. */
  method MaskInPlace(a: array<byte>, from: nat, to: nat, mask: seq<byte>)
    requires from <= to <= a.Length && |mask| == 4
    modifies a
    ensures a[..] == Placed(old(a[..]), from, Masked(mask, old(a[from..to])))
  {
    hide Xor8;
    ghost var m, data := a[..], a[from..to];
    ghost var masked := Masked(mask, data);
    for i := 0 to to - from
      invariant forall k :: 0 <= k < a.Length ==> a[k] == if from <= k < from + i then masked[k - from] else m[k]
    {
      a[from + i] := Xor8(a[from + i], mask[i % 4]);
    }
  }

  class Connection {
    const recv: Mbuf
    const send: Mbuf
    const client: bool     // no listener: the connection was made by us
    const noDefrag: bool   // MG_F_WEBSOCKET_NO_DEFRAG
    var events: seq<Event>
    var sendAndClose: bool

    ghost predicate Valid()
      reads recv, send
    {
      recv.Valid() && send.Valid()
    }

    constructor (recv: Mbuf, send: Mbuf, client: bool, noDefrag: bool)
      requires recv.Valid() && send.Valid()
      ensures Valid() && this.recv == recv && this.send == send
      ensures this.client == client && this.noDefrag == noDefrag && events == [] && !sendAndClose
    {
      this.recv, this.send, this.client, this.noDefrag := recv, send, client, noDefrag;
      events, sendAndClose := [], false;
    }

    /** mg_send_websocket_frame; random is the mask drawn for a client's frame. */
    method SendFrame(op: nat, data: seq<byte>, random: seq<byte>)
      requires Valid() && |random| == 4 && |data| + 14 < SIZE_LIMIT
      modifies this`sendAndClose, send, send.buf
      ensures Valid() && (send.buf == old(send.buf) || fresh(send.buf))
      ensures send.Contents() == old(send.Contents()) + EncodeFrame(Sent(op, data, if client then random else []))
      ensures sendAndClose == (old(sendAndClose) || op == 8)
    {
      hide LengthOctets, Flags, Masked, Header;
      ghost var was, f := send.Contents(), Sent(op, data, if client then random else []);
      var pos := SendHeader(op, |data|, random, f);
      ghost var front := was + Header(f);
      send.Append(data);
      assert (front + data)[..|front|] == front && (front + data)[|front|..] == data;
      if pos != 0 {
        MaskTail(pos, random);
      } else {
        Unmasked(data);
      }
      assert send.Contents() == front + Masked(f.mask, data) == was + EncodeFrame(f);
      if op == 8 {
        sendAndClose := true;
      }
    }

    /** mg_send_ws_header; pos is where the octets to be masked will start, 0 for none. */
    method SendHeader(op: nat, len: nat, random: seq<byte>, ghost f: Sent) returns (pos: nat)
      requires Valid() && Sendable(f) && f == Sent(op, f.data, if client then random else []) && |f.data| == len
      requires |random| == 4
      modifies send, send.buf
      ensures Valid() && (send.buf == old(send.buf) || fresh(send.buf))
      ensures send.Contents() == old(send.Contents()) + Header(f)
      ensures pos == if client then send.len else 0
    {
      hide LengthOctets, Flags;
      ghost var was := send.Contents();
      var header := [Flags(op)] + LengthOctets(len, if client then 128 else 0);
      send.Append(header);
      pos := 0;
      assert f.mask == [] ==> header + [] == header;
      if client {
        send.Append(random);
        assert was + header + random == was + (header + random);
        pos := send.len;
      }
    }

    /** mg_ws_mask_frame over the part of the send buffer from pos on. */
    method MaskTail(pos: nat, mask: seq<byte>)
      requires send.Valid() && pos <= send.len && |mask| == 4
      modifies send.buf
      ensures send.Contents() == old(send.Contents()[..pos]) + Masked(mask, old(send.Contents()[pos..]))
    {
      hide Masked, Placed;
      ghost var m, n := send.buf[..], send.len;
      SliceOfSlice(m, 0, n, 0, pos);
      SliceOfSlice(m, 0, n, pos, n);
      MaskInPlace(send.buf, pos, send.len, mask);
      PlacedOutside(m, pos, Masked(mask, m[pos..n]), 0, pos);
      PlacedInside(m, pos, Masked(mask, m[pos..n]));
      Sections(send.buf[..], 0, pos, n);
    }

    /** mg_deliver_websocket_data: hands the frame at the front of the buffer to the handler. */
    method DeliverOne() returns (ok: bool)
      requires Valid() && Deliverable(recv.Contents(), noDefrag)
      modifies this`events, recv, recv.buf
      ensures Valid() && recv.buf == old(recv.buf)
      ensures ok <==> ScanFrame(old(recv.Contents())).Frame?
      ensures !ok ==> events == old(events) && recv.Contents() == old(recv.Contents())
      ensures ok ==>
        var buf := old(recv.Contents());
        var f := ScanFrame(buf);
        && events == old(events) + [EventOf(buf[0], Payload(buf, f))]
        && recv.Contents() == buf[f.headerLen + f.dataLen..]
        && Deliverable(recv.Contents(), noDefrag)
    {
      hide Masked, Placed, Extent, ScanFrame, Deliverable;
      FrontFrame(recv.Contents(), noDefrag);
      var header, maskLen, dataLen := ReadExtent();
      ok := 0 < header + dataLen <= recv.len;
      if ok {
        HandOver(header, maskLen, dataLen);
      }
    }

    /** Unmasks the payload where it lies, calls the handler and removes the frame. */
    method HandOver(header: nat, maskLen: nat, dataLen: nat)
      requires recv.Valid() && 2 + maskLen <= header && header + dataLen <= recv.len
      requires maskLen == 0 || maskLen == 4
      modifies this`events, recv, recv.buf
      ensures recv.Valid() && recv.buf == old(recv.buf)
      ensures var buf, total := old(recv.Contents()), header + dataLen;
              && events == old(events) + [EventOf(buf[0], Masked(buf[header - maskLen..header], buf[header..total]))]
              && recv.Contents() == buf[total..]
    {
      hide Masked, EventOf;
      var total := header + dataLen;
      ghost var buf := recv.Contents();
      var mask, flags := recv.buf[header - maskLen..header], recv.buf[0];
      SliceOfSlice(recv.buf[..], 0, recv.len, header - maskLen, header);
      var data := UnmaskPayload(header, dataLen, mask);
      events := events + [EventOf(flags, data)];
      recv.Remove(total);
    }

    method ReadExtent() returns (header: nat, maskLen: nat, dataLen: nat)
      requires recv.Valid()
      ensures if recv.len >= 2 then (header, maskLen, dataLen) == Extent(recv.Contents())
              else header == 0 && dataLen == 0
    {
      hide Get16, Get32;
      header, maskLen, dataLen := 0, 0, 0;
      var buf := recv.buf;
      if recv.len >= 2 {
        var len := buf[1] % 128;
        maskLen := if buf[1] >= 128 then 4 else 0;
        if len < 126 && recv.len >= maskLen {
          dataLen := len;
          header := 2 + maskLen;
        } else if len == 126 && recv.len >= 4 + maskLen {
          header := 4 + maskLen;
          dataLen := Get16(buf[2], buf[3]);
        } else if recv.len >= 10 + maskLen {
          header := 10 + maskLen;
          SliceOfSlice(buf[..], 0, recv.len, 2, 6);
          SliceOfSlice(buf[..], 0, recv.len, 6, 10);
          dataLen := Get32(buf[2..6]) * 0x1_0000_0000 + Get32(buf[6..10]);
        }
      }
    }

    method UnmaskPayload(header: nat, dataLen: nat, mask: seq<byte>) returns (data: seq<byte>)
      requires recv.Valid() && header + dataLen <= recv.len && (|mask| == 0 || |mask| == 4)
      modifies recv.buf
      ensures data == Masked(mask, old(recv.Contents()[header..header + dataLen]))
      ensures recv.Contents()[header + dataLen..] == old(recv.Contents()[header + dataLen..])
    {
      hide Masked, Placed;
      ghost var m, end := recv.buf[..], header + dataLen;
      SliceOfSlice(m, 0, recv.len, header, end);
      SliceOfSlice(m, 0, recv.len, end, recv.len);
      if |mask| > 0 {
        MaskInPlace(recv.buf, header, header + dataLen, mask);
        PlacedInside(m, header, Masked(mask, m[header..end]));
        PlacedOutside(m, header, Masked(mask, m[header..end]), end, recv.len);
      }
      Unmasked(m[header..end]);
      data := recv.buf[header..header + dataLen];
      SliceOfSlice(recv.buf[..], 0, recv.len, end, recv.len);
    }

    /** MG_EV_RECV: delivers until no complete frame is left. */
    method Receive()
      requires Valid() && Deliverable(recv.Contents(), noDefrag)
      modifies this`events, recv, recv.buf
      ensures Valid() && recv.buf == old(recv.buf)
      ensures events == old(events) + DeliverAll(old(recv.Contents())).events
      ensures recv.Contents() == DeliverAll(old(recv.Contents())).rest
    {
      hide ScanFrame, Deliverable, Payload;
      ghost var whole := DeliverAll(recv.Contents());
      var more := true;
      while more
        invariant Valid() && recv.buf == old(recv.buf) && Deliverable(recv.Contents(), noDefrag)
        invariant var d := DeliverAll(recv.Contents());
                  old(events) + whole.events == events + d.events && whole.rest == d.rest
        invariant !more ==> !ScanFrame(recv.Contents()).Frame?
        decreases recv.len, more
      {
        ghost var d, seen := DeliverAll(recv.Contents()), events;
        more := DeliverOne();
        if more {
          ghost var rest := DeliverAll(recv.Contents());
          assert d.events == [events[|seen|]] + rest.events;
          assert seen + d.events == events + rest.events;
        }
      }
      assert events + [] == events;
    }

    /** Octets arrive from the socket and the frames they complete are delivered. */
    method ReceiveData(data: seq<byte>)
      requires Valid() && Deliverable(recv.Contents() + data, noDefrag)
      modifies this`events, recv, recv.buf
      ensures Valid() && (recv.buf == old(recv.buf) || fresh(recv.buf))
      ensures var d := DeliverAll(old(recv.Contents()) + data);
              events == old(events) + d.events && recv.Contents() == d.rest
    {
      hide ScanFrame, Deliverable, DeliverAll;
      recv.Append(data);
      Receive();
    }

    /** All arrivals of a stream. */
    method ReceiveArrivals(arrivals: seq<seq<byte>>)
      requires Valid() && recv.Contents() == []
      requires Deliverable(Concat(arrivals), noDefrag)
      modifies this`events, recv, recv.buf
      ensures Valid()
      ensures var d := DeliverAll(Concat(arrivals));
              events == old(events) + d.events && recv.Contents() == d.rest
    {
      hide ScanFrame, Deliverable, DeliverAll, DeliverArrivals, Concat;
      ghost var seen := events;
      NoArrivals(seen);
      assert arrivals[..0] == [];
      for i := 0 to |arrivals|
        invariant Valid() && (recv.buf == old(recv.buf) || fresh(recv.buf))
        invariant var d := DeliverArrivals(arrivals[..i]);
                  events == seen + d.events && recv.Contents() == d.rest
      {
        NextArrival(arrivals, i, noDefrag);
        Associate(seen, DeliverArrivals(arrivals[..i]).events, DeliverAll(recv.Contents() + arrivals[i]).events);
        ReceiveData(arrivals[i]);
      }
      assert arrivals[..|arrivals|] == arrivals;
      SplitInvariance(arrivals);
    }
  }

  lemma NoArrivals(seen: seq<Event>)
    ensures DeliverArrivals([]) == Delivery([], []) && seen + [] == seen
  {
  }

  lemma NextArrival(arrivals: seq<seq<byte>>, i: nat, noDefrag: bool)
    requires i < |arrivals| && Deliverable(Concat(arrivals), noDefrag)
    ensures var d := DeliverArrivals(arrivals[..i]);
            var e := DeliverAll(d.rest + arrivals[i]);
            DeliverArrivals(arrivals[..i + 1]) == Delivery(d.events + e.events, e.rest)
            && Deliverable(d.rest + arrivals[i], noDefrag)
  {
    hide ScanFrame, Deliverable, DeliverAll, Concat;
    assert arrivals[..i + 1][..i] == arrivals[..i];
    var before, rest := arrivals[..i], arrivals[i + 1..];
    SplitInvariance(before);
    ConcatAppend(before, arrivals[i]);
    assert arrivals == before + [arrivals[i]] + rest;
    ConcatSplit(before + [arrivals[i]], rest);
    DeliverableAppend(Concat(before) + arrivals[i], Concat(rest), noDefrag);
    DeliverableAppend(Concat(before), arrivals[i], noDefrag);
  }

  lemma Unmasked(data: seq<byte>)
    ensures Masked([], data) == data
  {
  }
}
