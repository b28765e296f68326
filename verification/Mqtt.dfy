/** MQTT packets (section 2 of MQTT 3.1.1): the variable length header inserted in front of a body
    already queued, the parser, and the iteration over a subscription's topics. */
module Mqtt {
  import opened Bytes
  import opened MbufModel

  const CONNECT: nat := 1
  const CONNACK: nat := 2
  const PUBLISH: nat := 3
  const SUBSCRIBE: nat := 8
  const SUBACK: nat := 9

  // ----- the fixed header

  function VarLength(n: nat): (r: seq<byte>)
    ensures |r| >= 1
  {
    if n < 0x80 then [n] else [0x80 + n % 0x80] + VarLength(n / 0x80)
  }

  function Packet(cmd: nat, flags: nat, body: seq<byte>): seq<byte>
    requires cmd < 16 && flags < 16
  {
    [cmd * 16 + flags] + VarLength(|body|) + body
  }

  // ----- memory as the parser sees it: the buffer and whatever lies behind it

  type Memory = nat -> byte

  /** A string the parser points at, as offset and length. */
  datatype View = View(off: nat, len: nat)

  function Text(mem: Memory, v: View): (r: seq<byte>)
    ensures |r| == v.len
  {
    seq(v.len, i requires 0 <= i < v.len => mem(v.off + i))
  }

  function U16(mem: Memory, p: nat): uint16 {
    Get16(mem(p), mem(p + 1))
  }

  /** A length-prefixed string at p, and where the next field starts. */
  function Scan(mem: Memory, p: nat): (View, nat) {
    var n := U16(mem, p);
    (View(p + 2, n), p + 2 + n)
  }

  /** body is in memory from p0 on. */
  predicate BodyAt(mem: Memory, p0: nat, body: seq<byte>) {
    forall i :: 0 <= i < |body| ==> mem(p0 + i) == body[i]
  }

  datatype Message = Message(
    cmd: nat, qos: nat, messageId: nat, topic: View, payload: View, connackRetCode: nat,
    protocolName: View, protocolVersion: nat, connectFlags: nat, keepAlive: nat,
    clientId: View, willTopic: View, willMessage: View, userName: View, password: View)

  const NO_VIEW: View := View(0, 0)
  const BLANK: Message := Message(0, 0, 0, NO_VIEW, NO_VIEW, 0, NO_VIEW, 0, 0, 0,
                                  NO_VIEW, NO_VIEW, NO_VIEW, NO_VIEW, NO_VIEW)

  /** One past the largest int. */
  const INT_LIMIT: nat := 0x8000_0000

  function Pow128(k: nat): (w: nat)
    ensures w >= 1
  {
    if k == 0 then 1 else 0x80 * Pow128(k - 1)
  }

  /** What the compiled program gets for x << 7 * k where C leaves it undefined: anything. */
  type Overflow = (nat, nat) -> nat

  /** The k-th length octet without its top bit, shifted as an int. */
  function Term(b: byte, k: nat, overflow: Overflow): nat {
    var x := b % 0x80;
    if k <= 4 && x * Pow128(k) < INT_LIMIT then x * Pow128(k) else overflow(x, k)
  }

  /** A difference of pointers as a size_t. */
  function ToSize(x: int): (n: nat)
    ensures 0 <= x < SIZE_LIMIT ==> n == x
  {
    x % SIZE_LIMIT
  }

  /** Addition of size_t. */
  function AddSize(x: nat, y: nat): nat {
    if x + y < SIZE_LIMIT then x + y else (x + y) % SIZE_LIMIT
  }

  /** The loop over the length octets from the k-th on, those before adding up to len: the value
      and the number of octets. It does not stop before the octet just past the buffer. */
  function LengthFrom(mem: Memory, avail: nat, k: nat, len: nat, overflow: Overflow): (r: (nat, nat))
    ensures r.1 >= 1
    decreases avail - k
  {
    var next := AddSize(len, Term(mem(1 + k), k, overflow));
    if mem(1 + k) >= 0x80 && 2 + k <= avail then LengthFrom(mem, avail, k + 1, next, overflow) else (next, k + 1)
  }

  /** A field that is read only while p < end and some connect flag is set. */
  function Optional(mem: Memory, p: nat, end: nat, present: bool): (View, nat) {
    if p < end && present then Scan(mem, p) else (NO_VIEW, p)
  }

  function Has(flags: nat, bit: nat): bool
    requires bit > 0
  {
    flags / bit % 2 == 1
  }

  function ConnectFields(mem: Memory, p0: nat, end: nat, mm: Message): Message {
    var (protocolName, p) := Scan(mem, p0);
    var version, flags, keepAlive := mem(p), mem(p + 1), U16(mem, p + 2);
    var (clientId, p1) := Optional(mem, p + 4, end, true);
    var (willTopic, p2) := Optional(mem, p1, end, Has(flags, 4));
    var (willMessage, p3) := Optional(mem, p2, end, Has(flags, 4));
    var (userName, p4) := Optional(mem, p3, end, Has(flags, 0x80));
    var (password, p5) := Optional(mem, p4, end, Has(flags, 0x40));
    mm.(protocolName := protocolName, protocolVersion := version, connectFlags := flags, keepAlive := keepAlive,
        clientId := clientId, willTopic := willTopic, willMessage := willMessage, userName := userName,
        password := password)
  }

  function PublishFields(mem: Memory, p0: nat, end: nat, mm: Message): Message {
    var p := if mm.qos > 0 then p0 + 2 else p0;
    var (topic, q) := Scan(mem, p);
    mm.(messageId := if mm.qos > 0 then U16(mem, p0) else mm.messageId,
        topic := topic, payload := View(q, ToSize(end - q)))
  }

  function Fields(mem: Memory, p: nat, end: nat, mm: Message): Message {
    if mm.cmd == CONNECT then ConnectFields(mem, p, end, mm)
    else if mm.cmd == CONNACK then mm.(connackRetCode := mem(p + 1))
    else if 4 <= mm.cmd <= 7 || mm.cmd == SUBACK then mm.(messageId := U16(mem, p))
    else if mm.cmd == PUBLISH then PublishFields(mem, p, end, mm)
    else if mm.cmd == SUBSCRIBE then
      mm.(messageId := U16(mem, p), payload := View(p + 2, ToSize(end - (p + 2))))
    else mm
  }

  /** What parse_mqtt returns and stores: -1, or the index just past the packet. */
  function Parse(mem: Memory, avail: nat, overflow: Overflow): (int, Message) {
    if avail < 2 then (-1, BLANK)
    else
      var (len, n) := LengthFrom(mem, avail, 0, 0, overflow);
      var end := 1 + n + len;
      if end > avail + 1 then (-1, BLANK)
      else (end, Fields(mem, 1 + n, end, BLANK.(cmd := mem(0) / 16, qos := mem(0) / 2 % 4)))
  }

  /** parse_mqtt */
  method ParseMqtt(mem: Memory, avail: nat, overflow: Overflow) returns (r: int, mm: Message)
    ensures (r, mm) == Parse(mem, avail, overflow)
  {
    hide Fields, LengthFrom, Term, AddSize;
    r, mm := -1, BLANK;
    if avail < 2 { return; }
    var header := mem(0);
    var len: nat, p, more := 0, 1, true;
    while more
      invariant 1 <= p <= avail + 1 && (more ==> p <= avail)
      invariant LengthFrom(mem, avail, 0, 0, overflow) ==
        if more then LengthFrom(mem, avail, p - 1, len, overflow) else (len, p - 1)
      decreases avail + 1 - p, more
    {
      LengthStep(mem, avail, p - 1, len, overflow);
      var b := mem(p);
      len := AddSize(len, Term(b, p - 1, overflow));
      p := p + 1;
      more := b >= 0x80 && p <= avail;
    }
    var end := p + len;
    if end > avail + 1 { return; }
    r, mm := end, Fields(mem, p, end, BLANK.(cmd := header / 16, qos := header / 2 % 4));
  }

  lemma LengthStep(mem: Memory, avail: nat, k: nat, len: nat, overflow: Overflow)
    ensures var b, next := mem(1 + k), AddSize(len, Term(mem(1 + k), k, overflow));
            LengthFrom(mem, avail, k, len, overflow) ==
              if b >= 0x80 && 2 + k <= avail then LengthFrom(mem, avail, k + 1, next, overflow) else (next, k + 1)
  {
    hide Term, AddSize;
  }

  // ----- powers of 128

  lemma {:induction false} Pow128Grows(k: nat)
    requires k >= 5
    ensures Pow128(k) >= 0x8_0000_0000
  {
    if k == 5 {
      assert Pow128(5) == 0x80 * Pow128(4) && Pow128(4) == 0x80 * Pow128(3) && Pow128(3) == 0x80 * Pow128(2)
          && Pow128(2) == 0x80 * Pow128(1) && Pow128(1) == 0x80;
    } else {
      Pow128Grows(k - 1);
    }
  }

  lemma Distribute(d: nat, v: nat, w: nat)
    ensures (d + 0x80 * v) * w == d * w + v * (0x80 * w)
  {
    calc {
      (d + 0x80 * v) * w;
      d * w + 0x80 * v * w;
      d * w + v * (0x80 * w);
    }
  }

  lemma AtLeast(m: nat, w: nat)
    requires m >= 1
    ensures m * w >= w
  {
    assert m * w == w + (m - 1) * w;
  }

  /** A value that fits an int leaves its digits in range of the shift. */
  lemma DigitFits(m: nat, k: nat, b: byte, overflow: Overflow)
    requires m * Pow128(k) < INT_LIMIT && b % 0x80 == m % 0x80 && (k > 0 ==> m >= 1)
    ensures Term(b, k, overflow) == m % 0x80 * Pow128(k)
    ensures m * Pow128(k) == m % 0x80 * Pow128(k) + m / 0x80 * Pow128(k + 1)
  {
    var w := Pow128(k);
    Distribute(m % 0x80, m / 0x80, w);
    assert m == m % 0x80 + 0x80 * (m / 0x80);
    assert Pow128(k + 1) == 0x80 * w;
    assert m / 0x80 * (0x80 * w) >= 0;
    if k >= 5 {
      Pow128Grows(k);
      AtLeast(m, w);
    }
  }

  // ----- what the parser makes of a packet

  lemma {:induction false} LengthReads(mem: Memory, avail: nat, k: nat, len: nat, m: nat, overflow: Overflow)
    requires avail >= 1 + k + |VarLength(m)| && len + m * Pow128(k) < INT_LIMIT && (k > 0 ==> m >= 1)
    requires forall i :: 0 <= i < |VarLength(m)| ==> mem(1 + k + i) == VarLength(m)[i]
    ensures LengthFrom(mem, avail, k, len, overflow) == (len + m * Pow128(k), k + |VarLength(m)|)
    decreases m
  {
    hide Pow128, Term, LengthFrom;
    var b := mem(1 + k);
    assert mem(1 + k + 0) == VarLength(m)[0];
    LengthStep(mem, avail, k, len, overflow);
    DigitFits(m, k, b, overflow);
    if m >= 0x80 {
      var rest := VarLength(m / 0x80);
      forall i | 0 <= i < |rest| ensures mem(1 + (k + 1) + i) == rest[i] {
        assert mem(1 + k + (i + 1)) == VarLength(m)[i + 1];
      }
      LengthReads(mem, avail, k + 1, len + m % 0x80 * Pow128(k), m / 0x80, overflow);
    } else {
      assert m / 0x80 == 0;
    }
  }

  /** Without the undefined shifts nothing from 2^31 on is ever read. */
  lemma {:induction false} ZeroOverflowIsSmall(mem: Memory, avail: nat, k: nat, len: nat)
    requires len < INT_LIMIT && (k <= 4 ==> len < Pow128(k))
    ensures LengthFrom(mem, avail, k, len, (x, y) => 0).0 < INT_LIMIT
    decreases avail - k
  {
    hide LengthFrom;
    var zero: Overflow, b := (x, y) => 0, mem(1 + k);
    LengthStep(mem, avail, k, len, zero);
    TermWithout(b, k, len, zero);
    if b >= 0x80 && 2 + k <= avail {
      ZeroOverflowIsSmall(mem, avail, k + 1, len + Term(b, k, zero));
    }
  }

  lemma TermWithout(b: byte, k: nat, len: nat, zero: Overflow)
    requires len < INT_LIMIT && (k <= 4 ==> len < Pow128(k)) && forall x, y :: zero(x, y) == 0
    ensures var next := len + Term(b, k, zero);
            next < INT_LIMIT && (k + 1 <= 4 ==> next < Pow128(k + 1)) && AddSize(len, Term(b, k, zero)) == next
  {
    if k <= 4 {
      var w, x := Pow128(k), b % 0x80;
      Powers();
      if k == 4 {
        assert x * w < INT_LIMIT ==> x <= 7;
      }
    }
  }

  lemma Powers()
    ensures Pow128(0) == 1 && Pow128(1) == 0x80 && Pow128(2) == 0x4000 && Pow128(3) == 0x20_0000 && Pow128(4) == 0x1000_0000
  {
    assert Pow128(0) == 1;
    assert Pow128(1) == 0x80 * Pow128(0);
    assert Pow128(2) == 0x80 * Pow128(1);
    assert Pow128(3) == 0x80 * Pow128(2);
    assert Pow128(4) == 0x80 * Pow128(3);
  }

  /** The length octets of n read back as n, whatever becomes of undefined shifts, exactly if n
      fits an int. */
  lemma LengthRoundTrip(mem: Memory, avail: nat, n: nat)
    requires avail >= 1 + |VarLength(n)|
    requires forall i :: 0 <= i < |VarLength(n)| ==> mem(1 + i) == VarLength(n)[i]
    ensures (forall overflow :: LengthFrom(mem, avail, 0, 0, overflow) == (n, |VarLength(n)|)) <==> n < INT_LIMIT
  {
    hide LengthFrom, VarLength;
    assert Pow128(0) == 1 && n * 1 == n;
    if n < INT_LIMIT {
      forall overflow: Overflow ensures LengthFrom(mem, avail, 0, 0, overflow) == (n, |VarLength(n)|) {
        LengthReads(mem, avail, 0, 0, n, overflow);
      }
    } else {
      ZeroOverflowIsSmall(mem, avail, 0, 0);
    }
  }

  lemma Remainder(m: nat, w: nat, q: nat, r: nat)
    requires r < w && m == w * q + r
    ensures m % w == r
  {
    assert m == w * (m / w) + m % w;
    if m / w > q {
      Multiples(w, q, m / w);
    } else if m / w < q {
      Multiples(w, m / w, q);
    }
  }

  lemma Multiples(w: nat, x: nat, y: nat)
    requires x < y
    ensures w * y >= w * x + w
  {
    assert w * y == w * x + w * (y - x);
    AtLeast(y - x, w);
    assert (y - x) * w == w * (y - x);
  }

  lemma LowDigits(m: nat, j: nat)
    requires j > 0
    ensures m % Pow128(j) == m % 0x80 + 0x80 * (m / 0x80 % Pow128(j - 1))
  {
    var w, h := Pow128(j - 1), m / 0x80;
    assert h == w * (h / w) + h % w;
    assert m == 0x80 * h + m % 0x80;
    assert 0x80 * (w * (h / w)) == 0x80 * w * (h / w);
    Remainder(m, 0x80 * w, h / w, 0x80 * (h % w) + m % 0x80);
  }

  /** Cut inside the length octets: the j that are there count, then the octet behind the buffer. */
  lemma {:induction false} LengthCut(mem: Memory, avail: nat, k: nat, len: nat, m: nat, j: nat, overflow: Overflow)
    requires avail == 1 + k + j && j < |VarLength(m)| && BodyAt(mem, 1 + k, VarLength(m)[..j])
    requires len + m * Pow128(k) < INT_LIMIT && (k > 0 ==> m >= 1)
    ensures LengthFrom(mem, avail, k, len, overflow) ==
      (AddSize(len + m % Pow128(j) * Pow128(k), Term(mem(avail), avail - 1, overflow)), avail)
    decreases j
  {
    hide LengthFrom, Term, AddSize, Pow128;
    LengthStep(mem, avail, k, len, overflow);
    if j == 0 {
      Powers();
      assert m % 1 == 0 && 0 * Pow128(k) == 0;
    } else {
      assert m >= 0x80;
      var rest, b := VarLength(m / 0x80), mem(1 + k);
      assert mem(1 + k + 0) == VarLength(m)[..j][0];
      BodyTail(mem, 1 + k, VarLength(m)[..j], 1);
      assert VarLength(m)[..j][1..] == rest[..j - 1];
      DigitFits(m, k, b, overflow);
      SmallSum(len, m % 0x80 * Pow128(k));
      LengthCut(mem, avail, k + 1, len + m % 0x80 * Pow128(k), m / 0x80, j - 1, overflow);
      LowDigits(m, j);
      PowStep(k);
      Distribute(m % 0x80, m / 0x80 % Pow128(j - 1), Pow128(k));
    }
  }

  lemma SmallSum(x: nat, y: nat)
    requires x + y < INT_LIMIT
    ensures AddSize(x, y) == x + y
  {
  }

  lemma PowStep(k: nat)
    ensures Pow128(k + 1) == 0x80 * Pow128(k)
  {
  }

  /** The octet just behind the buffer adds nothing to the length octets that are there. */
  predicate CutAccepted(len: nat, mem: Memory, avail: nat, overflow: Overflow)
    requires avail >= 2
  {
    AddSize(len % Pow128(avail - 1), Term(mem(avail), avail - 1, overflow)) == 0
  }

  /** A packet of which the first avail octets are in the buffer. Cut inside the length octets it is
      taken for an empty one if those that are there, and the one behind them, come to zero. From
      there on, a packet that lacks only its last octet is taken for complete. */
  lemma ParsePrefix(cmd: nat, flags: nat, body: seq<byte>, mem: Memory, avail: nat, overflow: Overflow)
    requires cmd < 16 && flags < 16 && |body| < INT_LIMIT
    requires var s := Packet(cmd, flags, body);
             avail <= |s| && forall i :: 0 <= i < avail ==> mem(i) == s[i]
    ensures var s := Packet(cmd, flags, body);
            var p, blank := |s| - |body|, BLANK.(cmd := cmd, qos := flags / 2 % 4);
            Parse(mem, avail, overflow) ==
              if avail < 2 then (-1, BLANK)
              else if avail < p then
                if CutAccepted(|body|, mem, avail, overflow)
                then (avail + 1, Fields(mem, avail + 1, avail + 1, blank)) else (-1, BLANK)
              else if avail + 1 < |s| then (-1, BLANK)
              else (|s|, Fields(mem, p, |s|, blank))
  {
    hide Parse, VarLength, LengthFrom, Fields, CutAccepted;
    var s, v := Packet(cmd, flags, body), VarLength(|body|);
    PacketLayout(cmd, flags, body);
    if avail < 2 {
      TooShort(mem, avail, overflow);
    } else {
      FirstOctet(cmd, flags);
      assert mem(0) == s[0] == cmd * 16 + flags;
      forall i | 0 <= i < |v| && 1 + i < avail ensures mem(1 + i) == v[i] {
        assert s[1 + i] == v[i];
      }
      LengthPrefix(|body|, mem, avail, overflow);
      ParseIs(mem, avail, overflow);
    }
  }

  /** What is read of the length when avail octets of the packet are in the buffer. */
  lemma LengthPrefix(len: nat, mem: Memory, avail: nat, overflow: Overflow)
    requires len < INT_LIMIT && avail >= 2
    requires forall i :: 0 <= i < |VarLength(len)| && 1 + i < avail ==> mem(1 + i) == VarLength(len)[i]
    ensures var (read, n) := LengthFrom(mem, avail, 0, 0, overflow);
            if avail < 1 + |VarLength(len)| then n == avail && (read == 0 <==> CutAccepted(len, mem, avail, overflow))
            else n == |VarLength(len)| && read == len
  {
    hide VarLength, LengthFrom, CutAccepted;
    Powers();
    if avail < 1 + |VarLength(len)| {
      assert BodyAt(mem, 1 + 0, VarLength(len)[..avail - 1]);
      LengthCut(mem, avail, 0, 0, len, avail - 1, overflow);
      CutMeans(len, mem, avail, overflow);
    } else {
      LengthReads(mem, avail, 0, 0, len, overflow);
    }
  }

  lemma CutMeans(len: nat, mem: Memory, avail: nat, overflow: Overflow)
    requires avail >= 2
    ensures var low := len % Pow128(avail - 1);
            CutAccepted(len, mem, avail, overflow) <==> AddSize(0 + low * 1, Term(mem(avail), avail - 1, overflow)) == 0
  {
  }

  lemma TooShort(mem: Memory, avail: nat, overflow: Overflow)
    requires avail < 2
    ensures Parse(mem, avail, overflow) == (-1, BLANK)
  {
  }

  /** Such a packet is taken for complete, whatever becomes of undefined shifts, exactly if the digits
      that are there are zero, and so are the low seven bits behind them; within the four length
      octets of the standard no shift is undefined. */
  lemma CutAcceptedIff(len: nat, mem: Memory, avail: nat)
    requires 2 <= avail <= 5
    ensures var zeros := len % Pow128(avail - 1) == 0 && mem(avail) % 0x80 == 0;
            && ((forall overflow :: CutAccepted(len, mem, avail, overflow)) <==> zeros)
            && (avail <= 4 ==> forall overflow :: CutAccepted(len, mem, avail, overflow) <==> zeros)
  {
    hide Pow128;
    Powers();
    var one: Overflow := (x, y) => 1;
    var w := Pow128(avail - 1);
    assert len % w < w;
    assert CutAccepted(len, mem, avail, one) ==> len % w == 0 && mem(avail) % 0x80 == 0;
  }

  lemma {:induction false} LengthCount(mem: Memory, avail: nat, k: nat, len: nat, m: nat, overflow: Overflow)
    requires avail >= 1 + k + |VarLength(m)|
    requires forall i :: 0 <= i < |VarLength(m)| ==> mem(1 + k + i) == VarLength(m)[i]
    ensures LengthFrom(mem, avail, k, len, overflow).1 == k + |VarLength(m)|
    decreases m
  {
    hide Term, LengthFrom, AddSize;
    assert mem(1 + k + 0) == VarLength(m)[0];
    LengthStep(mem, avail, k, len, overflow);
    if m >= 0x80 {
      var rest := VarLength(m / 0x80);
      forall i | 0 <= i < |rest| ensures mem(1 + (k + 1) + i) == rest[i] {
        assert mem(1 + k + (i + 1)) == VarLength(m)[i + 1];
      }
      LengthCount(mem, avail, k + 1, AddSize(len, Term(mem(1 + k), k, overflow)), m / 0x80, overflow);
    }
  }

  /** A whole packet is recognised with its length, whatever becomes of undefined shifts, exactly if
      the remaining length fits an int. */
  lemma LengthLimit(cmd: nat, flags: nat, body: seq<byte>, mem: Memory)
    requires cmd < 16 && flags < 16
    requires var s := Packet(cmd, flags, body); forall i :: 0 <= i < |s| ==> mem(i) == s[i]
    ensures var s := Packet(cmd, flags, body);
            (forall overflow :: Parse(mem, |s|, overflow).0 == |s|) <==> |body| < INT_LIMIT
  {
    hide Parse, LengthFrom, VarLength, Fields;
    var s, v := Packet(cmd, flags, body), VarLength(|body|);
    PacketLayout(cmd, flags, body);
    if |body| < INT_LIMIT {
      forall overflow: Overflow ensures Parse(mem, |s|, overflow).0 == |s| {
        ParsePrefix(cmd, flags, body, mem, |s|, overflow);
      }
    } else {
      var zero: Overflow := (x, y) => 0;
      forall i | 0 <= i < |v| ensures mem(1 + 0 + i) == v[i] {
        assert s[1 + i] == v[i];
      }
      LengthCount(mem, |s|, 0, 0, |body|, zero);
      Powers();
      ZeroOverflowIsSmall(mem, |s|, 0, 0);
      ParseIs(mem, |s|, zero);
      assert Parse(mem, |s|, zero).0 != |s|;
    }
  }

  /** Two octets of a packet of 131, taken for a complete packet. */
  lemma CutAcceptedExample(body: seq<byte>, mem: Memory, overflow: Overflow)
    requires |body| == 0x80 && mem(0) == 0x30 && mem(1) == 0x80 && mem(2) == 0
    ensures var s := Packet(PUBLISH, 0, body);
            |s| == 131 && s[0] == mem(0) && s[1] == mem(1) && Parse(mem, 2, overflow).0 == 3
  {
    hide Parse, Fields, Pow128;
    var s := Packet(PUBLISH, 0, body);
    assert VarLength(0x80) == [0x80] + VarLength(1) && VarLength(1) == [1];
    ParsePrefix(PUBLISH, 0, body, mem, 2, overflow);
    CutAcceptedIff(0x80, mem, 2);
    Powers();
  }

  lemma PacketLayout(cmd: nat, flags: nat, body: seq<byte>)
    requires cmd < 16 && flags < 16
    ensures var s, v := Packet(cmd, flags, body), VarLength(|body|);
            |v| >= 1 && |s| == 1 + |v| + |body| && s[0] == cmd * 16 + flags && forall i :: 0 <= i < |v| ==> s[1 + i] == v[i]
  {
  }

  lemma ParseIs(mem: Memory, avail: nat, overflow: Overflow)
    requires avail >= 2
    ensures var (len, n) := LengthFrom(mem, avail, 0, 0, overflow);
            Parse(mem, avail, overflow) ==
              if 1 + n + len > avail + 1 then (-1, BLANK)
              else (1 + n + len, Fields(mem, 1 + n, 1 + n + len, BLANK.(cmd := mem(0) / 16, qos := mem(0) / 2 % 4)))
  {
    hide LengthFrom, Fields;
  }

  lemma FirstOctet(cmd: nat, flags: nat)
    requires cmd < 16 && flags < 16
    ensures (cmd * 16 + flags) / 16 == cmd && (cmd * 16 + flags) / 2 % 4 == flags / 2 % 4
  {
    assert (cmd * 16 + flags) / 2 == cmd * 8 + flags / 2;
  }

  // ----- the layout of sections 2.2 and 2.2.3 of MQTT 3.1.1

  /** Digits to base 128, the least significant first, in the low seven bits of each octet. */
  function Number128(s: seq<byte>): nat {
    if s == [] then 0 else s[0] % 128 + 128 * Number128(s[1..])
  }

  /** The length octets: each but the last has its top bit set, and there is none too many. */
  lemma {:induction false} LengthOctets(n: nat)
    ensures var v := VarLength(n);
            && Number128(v) == n && (forall k :: 0 <= k < |v| ==> (v[k] >= 128 <==> k < |v| - 1))
            && (|v| > 1 ==> v[|v| - 1] != 0)
  {
    var v := VarLength(n);
    if n >= 0x80 {
      LengthOctets(n / 0x80);
      assert v[1..] == VarLength(n / 0x80);
      assert forall k :: 0 < k < |v| ==> v[k] == VarLength(n / 0x80)[k - 1];
    } else {
      assert v[1..] == [];
    }
  }

  /** Command and flags in the first octet, then the length octets, then the body. */
  lemma FixedHeader(cmd: nat, flags: nat, body: seq<byte>)
    requires cmd < 16 && flags < 16
    ensures var s, v := Packet(cmd, flags, body), VarLength(|body|);
            s[0] / 16 == cmd && s[0] % 16 == flags && s[1..1 + |v|] == v && s[1 + |v|..] == body
  {
    hide VarLength;
    var s, v := Packet(cmd, flags, body), VarLength(|body|);
    PacketLayout(cmd, flags, body);
    assert s == [cmd * 16 + flags] + (v + body);
  }

  /** A publish has the QoS in bits 1 and 2 of its flags, a length in front of its topic, and above QoS
      0 the message id behind it; a subscribe has the message id first, and a QoS behind each topic. */
  lemma BodyLayout(topic: seq<byte>, id: uint16, flags: nat, data: seq<byte>, t: TopicFilter)
    requires |topic| < 0x1_0000 && |t.topic| < 0x1_0000
    ensures var b, n := PublishBody(topic, id, flags, data), |topic|;
            && |b| >= 2 + n && Number(b[..2]) == n && b[2..2 + n] == topic
            && (flags % 8 < 2 ==> b[2 + n..] == data)
            && (flags % 8 >= 2 ==> |b| >= 4 + n && Number(b[2 + n..4 + n]) == id && b[4 + n..] == data)
    ensures var b, n := SubscribeBody([t], id), |t.topic|;
            |b| == 5 + n && Number(b[..2]) == id && Number(b[2..4]) == n && b[4..4 + n] == t.topic && b[4 + n] == t.qos
  {
    hide Number, Be16;
    var b, n := PublishBody(topic, id, flags, data), |topic|;
    QosBits(flags);
    BigEndian16(n, 0, 0);
    BigEndian16(id, 0, 0);
    BigEndian16(|t.topic|, 0, 0);
    var rest := (if flags / 2 % 4 > 0 then Be16(id) else []) + data;
    assert b == Be16(n) + (topic + rest);
    assert b[..2] == Be16(n) && b[2..] == topic + rest && b[2 + n..] == rest;
    if flags % 8 >= 2 {
      assert b[2 + n..4 + n] == Be16(id);
    }
    var f := SubscribeBody([t], id);
    assert FiltersBytes([t]) == FilterBytes(t) + FiltersBytes([t][1..]) == FilterBytes(t);
    assert f == Be16(id) + (Be16(|t.topic|) + (t.topic + [t.qos]));
    assert f[..2] == Be16(id) && f[2..4] == Be16(|t.topic|) && f[4..4 + |t.topic|] == t.topic;
  }

  lemma QosBits(flags: nat)
    ensures flags / 2 % 4 > 0 <==> flags % 8 >= 2
  {
  }

  // ----- publish

  function PublishBody(topic: seq<byte>, id: uint16, flags: nat, data: seq<byte>): seq<byte> {
    Be16(|topic| % 0x1_0000) + topic + (if flags / 2 % 4 > 0 then Be16(id) else []) + data
  }

  /** The octets hi, lo, hi, lo, ... that make up topic, ending in the middle only if they agree. */
  predicate Alternates(topic: seq<byte>, hi: byte, lo: byte) {
    && (forall i :: 0 <= i < |topic| ==> topic[i] == if i % 2 == 0 then hi else lo)
    && (|topic| % 2 == 1 ==> hi == lo)
  }

  /** When a published message is parsed to itself. Above QoS 0 the sender puts the topic first and
      the parser expects the message id first, so it takes a topic that spells its own length. */
  predicate Survives(topic: seq<byte>, id: uint16, flags: nat) {
    if flags / 2 % 4 == 0 then |topic| < 0x1_0000
    else id == |topic| && Alternates(topic, id / 0x100, id % 0x100)
  }

  predicate Recovered(mem: Memory, mm: Message, topic: seq<byte>, id: uint16, flags: nat, data: seq<byte>) {
    && mm.cmd == PUBLISH && mm.qos == flags / 2 % 4
    && Text(mem, mm.topic) == topic
    && (mm.qos > 0 ==> mm.messageId == id)
    && Text(mem, mm.payload) == data
  }

  lemma {:induction false} RotationAlternates(topic: seq<byte>, hi: byte, lo: byte, i: nat)
    requires [hi, lo] + topic == topic + [hi, lo] && i < |topic|
    ensures topic[i] == if i % 2 == 0 then hi else lo
  {
    var x := [hi, lo] + topic;
    assert x[i] == topic[i];
    if i >= 2 {
      assert x[i] == topic[i - 2];
      RotationAlternates(topic, hi, lo, i - 2);
    }
  }

  lemma RotationIff(topic: seq<byte>, hi: byte, lo: byte)
    ensures [hi, lo] + topic == topic + [hi, lo] <==> Alternates(topic, hi, lo)
  {
    var x, y, n := [hi, lo] + topic, topic + [hi, lo], |topic|;
    if x == y {
      forall i | 0 <= i < n ensures topic[i] == if i % 2 == 0 then hi else lo {
        RotationAlternates(topic, hi, lo, i);
      }
      if n % 2 == 1 {
        assert x[n] == y[n] == hi && x[n + 1] == y[n + 1] == lo;
        assert x[n + 1] == topic[n - 1] == hi;
      }
    }
    if Alternates(topic, hi, lo) {
      forall i | 0 <= i < n + 2 ensures x[i] == y[i] {
      }
    }
  }

  lemma TextIs(mem: Memory, p0: nat, body: seq<byte>, from: nat, to: nat)
    requires BodyAt(mem, p0, body) && from <= to <= |body|
    ensures Text(mem, View(p0 + from, to - from)) == body[from..to]
  {
    forall i | 0 <= i < to - from ensures Text(mem, View(p0 + from, to - from))[i] == body[from..to][i] {
      assert mem(p0 + (from + i)) == body[from + i];
    }
  }

  lemma U16Is(mem: Memory, p0: nat, body: seq<byte>, from: nat)
    requires BodyAt(mem, p0, body) && from + 2 <= |body|
    ensures U16(mem, p0 + from) == Get16(body[from], body[from + 1])
  {
    assert mem(p0 + from) == body[from] && mem(p0 + (from + 1)) == body[from + 1];
  }

  lemma QosZeroFields(topic: seq<byte>, id: uint16, flags: nat, data: seq<byte>, mem: Memory, p0: nat)
    requires flags < 16 && flags / 2 % 4 == 0 && BodyAt(mem, p0, PublishBody(topic, id, flags, data))
    requires |PublishBody(topic, id, flags, data)| < INT_LIMIT
    ensures var body := PublishBody(topic, id, flags, data);
            var mm := PublishFields(mem, p0, p0 + |body|, BLANK.(cmd := PUBLISH, qos := 0));
            Recovered(mem, mm, topic, id, flags, data) <==> |topic| < 0x1_0000
  {
    hide PublishBody, PublishFields, Be16, Get16, BodyAt, U16, Text;
    var body, n := PublishBody(topic, id, flags, data), |topic|;
    QosZeroLayout(topic, id, flags, data);
    U16Is(mem, p0, body, 0);
    Be16RoundTrip(n % 0x1_0000);
    var mm := PublishFields(mem, p0, p0 + |body|, BLANK.(cmd := PUBLISH, qos := 0));
    QosZeroViews(mem, p0, p0 + |body|, BLANK.(cmd := PUBLISH, qos := 0));
    assert mm.topic.len == n % 0x1_0000 && |Text(mem, mm.topic)| == mm.topic.len;
    if n < 0x1_0000 {
      TextIs(mem, p0, body, 2, 2 + n);
      TextIs(mem, p0, body, 2 + n, |body|);
    }
  }

  lemma QosZeroLayout(topic: seq<byte>, id: uint16, flags: nat, data: seq<byte>)
    requires flags / 2 % 4 == 0
    ensures var body, n := PublishBody(topic, id, flags, data), |topic|;
            && |body| == 2 + n + |data|
            && body[0] == Be16(n % 0x1_0000)[0] && body[1] == Be16(n % 0x1_0000)[1]
            && body[2..2 + n] == topic && body[2 + n..|body|] == data
  {
    hide Be16;
    assert PublishBody(topic, id, flags, data) == Be16(|topic| % 0x1_0000) + topic + data;
  }

  lemma QosZeroViews(mem: Memory, p0: nat, end: nat, mm: Message)
    requires mm.qos == 0
    ensures var r, len := PublishFields(mem, p0, end, mm), U16(mem, p0);
            && r.topic == View(p0 + 2, len) && r.payload == View(p0 + 2 + len, ToSize(end - (p0 + 2 + len)))
            && r.cmd == mm.cmd && r.qos == 0
  {
    hide U16;
  }

  lemma Octets(n: uint16)
    ensures Be16(n) == [n / 0x100, n % 0x100]
  {
  }

  /** What stands where the topic is looked for: the topic one field late. */
  lemma LateTopic(topic: seq<byte>, id: uint16, data: seq<byte>)
    ensures var rest, n := topic + Be16(id) + data, |topic|;
            (id == n && Get16(rest[0], rest[1]) == n && rest[2..2 + n] == topic)
              <==> (id == n && Alternates(topic, id / 0x100, id % 0x100))
  {
    hide Be16, Get16, Alternates;
    Octets(id);
    Be16RoundTrip(id);
    var hi, lo, n := id / 0x100, id % 0x100, |topic|;
    var turned := topic + [hi, lo];
    var rest := turned + data;
    RotationIff(topic, hi, lo);
    Get16RoundTrip(rest[0], rest[1]);
    assert rest[2..2 + n] == turned[2..];
    assert turned == [turned[0], turned[1]] + turned[2..];
    if id == n && Get16(rest[0], rest[1]) == n && rest[2..2 + n] == topic {
      assert [rest[0], rest[1]] == [hi, lo];
    }
    if id == n && Alternates(topic, hi, lo) {
      assert turned == [hi, lo] + topic;
      assert turned[2..] == topic;
    }
  }

  lemma QosFields(topic: seq<byte>, id: uint16, flags: nat, data: seq<byte>, mem: Memory, p0: nat)
    requires flags < 16 && flags / 2 % 4 > 0 && BodyAt(mem, p0, PublishBody(topic, id, flags, data))
    requires |PublishBody(topic, id, flags, data)| < INT_LIMIT
    ensures var body := PublishBody(topic, id, flags, data);
            var mm := PublishFields(mem, p0, p0 + |body|, BLANK.(cmd := PUBLISH, qos := flags / 2 % 4));
            Recovered(mem, mm, topic, id, flags, data) <==> Survives(topic, id, flags)
  {
    hide PublishBody, PublishFields, Be16, Get16, Alternates, BodyAt, U16, Text;
    var body, n, rest := PublishBody(topic, id, flags, data), |topic|, topic + Be16(id) + data;
    QosLayout(topic, id, flags, data);
    U16Is(mem, p0, body, 0);
    U16Is(mem, p0, body, 2);
    Be16RoundTrip(n % 0x1_0000);
    LateTopic(topic, id, data);
    TextIs(mem, p0, body, 4, 4 + n);
    TextIs(mem, p0, body, 4 + n, |body|);
    var mm := PublishFields(mem, p0, p0 + |body|, BLANK.(cmd := PUBLISH, qos := flags / 2 % 4));
    QosViews(mem, p0, p0 + |body|, BLANK.(cmd := PUBLISH, qos := flags / 2 % 4));
    assert |Text(mem, mm.topic)| == mm.topic.len;
  }

  /** Where the fields of a publish body with a message id lie. */
  lemma QosLayout(topic: seq<byte>, id: uint16, flags: nat, data: seq<byte>)
    requires flags / 2 % 4 > 0
    ensures var body, n, rest := PublishBody(topic, id, flags, data), |topic|, topic + Be16(id) + data;
            && |body| == 4 + n + |data| && |rest| == 2 + n + |data|
            && body[0] == Be16(n % 0x1_0000)[0] && body[1] == Be16(n % 0x1_0000)[1]
            && body[2] == rest[0] && body[3] == rest[1]
            && body[4..4 + n] == rest[2..2 + n] && body[4 + n..|body|] == data
  {
    hide Be16;
    var body, n, rest := PublishBody(topic, id, flags, data), |topic|, topic + Be16(id) + data;
    var head := Be16(n % 0x1_0000);
    assert body == head + rest;
    assert body[2..] == rest;
    SliceOfSlice(body, 2, |body|, 2, 2 + n);
    SliceOfSlice(body, 2, |body|, 2 + n, |body| - 2);
    assert rest[2 + n..|body| - 2] == data;
  }

  /** Where the parser looks for them. */
  lemma QosViews(mem: Memory, p0: nat, end: nat, mm: Message)
    requires mm.qos > 0
    ensures var r, len := PublishFields(mem, p0, end, mm), U16(mem, p0 + 2);
            && r.messageId == U16(mem, p0) && r.topic == View(p0 + 4, len)
            && r.payload == View(p0 + 4 + len, ToSize(end - (p0 + 4 + len))) && r.cmd == mm.cmd && r.qos == mm.qos
  {
    hide U16;
  }

  /** A buffered publish packet parses to its full length, and to the message sent exactly when the
      message is one that survives. */
  lemma PublishRoundTrip(topic: seq<byte>, id: uint16, flags: nat, data: seq<byte>, mem: Memory, avail: nat,
                         overflow: Overflow)
    requires flags < 16
    requires var s := Packet(PUBLISH, flags, PublishBody(topic, id, flags, data));
             avail == |s| && forall i :: 0 <= i < |s| ==> mem(i) == s[i]
    ensures var (r, mm) := Parse(mem, avail, overflow);
            |PublishBody(topic, id, flags, data)| < INT_LIMIT ==>
              r == avail && (Recovered(mem, mm, topic, id, flags, data) <==> Survives(topic, id, flags))
  {
    hide Parse, PublishFields, Recovered, Survives, VarLength, BodyAt;
    var body := PublishBody(topic, id, flags, data);
    var s := Packet(PUBLISH, flags, body);
    if |body| >= INT_LIMIT { return; }
    ParsePrefix(PUBLISH, flags, body, mem, avail, overflow);
    var p0 := |s| - |body|;
    BodyInPacket(PUBLISH, flags, body, mem);
    if flags / 2 % 4 == 0 {
      QosZeroFields(topic, id, flags, data, mem, p0);
      SurvivesAtZero(topic, id, flags);
    } else {
      QosFields(topic, id, flags, data, mem, p0);
    }
  }

  predicate PublishComesBack(mem: Memory, topic: seq<byte>, id: uint16, flags: nat, data: seq<byte>, overflow: Overflow)
    requires flags < 16
  {
    var s := Packet(PUBLISH, flags, PublishBody(topic, id, flags, data));
    var (r, mm) := Parse(mem, |s|, overflow);
    r == |s| && Recovered(mem, mm, topic, id, flags, data)
  }

  /** A published message of any size comes back, whatever becomes of undefined shifts, exactly if
      its remaining length fits an int and the message is one that survives. */
  lemma PublishRecovery(topic: seq<byte>, id: uint16, flags: nat, data: seq<byte>, mem: Memory)
    requires flags < 16
    requires var s := Packet(PUBLISH, flags, PublishBody(topic, id, flags, data));
             forall i :: 0 <= i < |s| ==> mem(i) == s[i]
    ensures (forall overflow :: PublishComesBack(mem, topic, id, flags, data, overflow)) <==>
              |PublishBody(topic, id, flags, data)| < INT_LIMIT && Survives(topic, id, flags)
  {
    hide Parse, Recovered, Survives, Packet, PublishBody;
    var body := PublishBody(topic, id, flags, data);
    var s := Packet(PUBLISH, flags, body);
    LengthLimit(PUBLISH, flags, body, mem);
    forall overflow: Overflow
      ensures |body| < INT_LIMIT ==>
        (PublishComesBack(mem, topic, id, flags, data, overflow) <==> Survives(topic, id, flags))
      ensures PublishComesBack(mem, topic, id, flags, data, overflow) ==> Parse(mem, |s|, overflow).0 == |s|
    {
      PublishRoundTrip(topic, id, flags, data, mem, |s|, overflow);
    }
    var zero: Overflow := (x, y) => 0;
    assert |body| < INT_LIMIT ==>
      (PublishComesBack(mem, topic, id, flags, data, zero) <==> Survives(topic, id, flags));
  }

  lemma SurvivesAtZero(topic: seq<byte>, id: uint16, flags: nat)
    requires flags / 2 % 4 == 0
    ensures Survives(topic, id, flags) <==> |topic| < 0x1_0000
  {
  }

  /** No C string of 1 to 256 characters survives above QoS 0, whatever its message id. */
  lemma QosLosesTopics(topic: seq<byte>, id: uint16, flags: nat)
    requires flags / 2 % 4 > 0 && 1 <= |topic| <= 256 && forall i :: 0 <= i < |topic| ==> topic[i] != 0
    ensures !Survives(topic, id, flags)
  {
    assert topic[0] != 0;
    if |topic| < 256 {
      assert |topic| / 0x100 == 0;
    } else {
      assert topic[1] != 0 && |topic| % 0x100 == 0;
    }
  }

  /** The topic "a" published with QoS 1 and message id 1: the parser takes the letter for part of a
      length of 24832, and the payload ends before it begins, which as a size_t is almost all of memory. */
  lemma QosCounterexample(mem: Memory, overflow: Overflow)
    requires var s := Packet(PUBLISH, 2, PublishBody([97], 1, 2, []));
             forall i :: 0 <= i < |s| ==> mem(i) == s[i]
    ensures var s := Packet(PUBLISH, 2, PublishBody([97], 1, 2, []));
            var (r, mm) := Parse(mem, |s|, overflow);
            r == |s| == 7 && mm.messageId == 1 && mm.topic == View(6, 24832)
            && mm.payload == View(24838, SIZE_LIMIT - 24831) && !Recovered(mem, mm, [97], 1, 2, [])
  {
    hide Parse, PublishFields, Recovered;
    var body := PublishBody([97], 1, 2, []);
    var s := Packet(PUBLISH, 2, body);
    assert body == [0, 1, 97, 0, 1] && VarLength(5) == [5] && s == [50, 5, 0, 1, 97, 0, 1];
    PublishRoundTrip([97], 1, 2, [], mem, |s|, overflow);
    QosLosesTopics([97], 1, 2);
    ParsePrefix(PUBLISH, 2, body, mem, |s|, overflow);
    QosViews(mem, 2, 7, BLANK.(cmd := PUBLISH, qos := 1));
    assert U16(mem, 2) == 1 && U16(mem, 4) == 24832;
  }

  // ----- subscribe

  datatype TopicFilter = TopicFilter(topic: seq<byte>, qos: byte)

  function FilterBytes(t: TopicFilter): seq<byte> {
    Be16(|t.topic| % 0x1_0000) + t.topic + [t.qos]
  }

  function FiltersBytes(ts: seq<TopicFilter>): seq<byte> {
    if ts == [] then [] else FilterBytes(ts[0]) + FiltersBytes(ts[1..])
  }

  function SubscribeBody(ts: seq<TopicFilter>, id: uint16): seq<byte> {
    Be16(id) + FiltersBytes(ts)
  }

  /** mg_mqtt_next_subscribe_topic: the topic and QoS at pos, and the next position or -1. */
  function NextTopic(mem: Memory, payload: View, pos: nat): (int, View, byte) {
    if pos >= payload.len then (-1, NO_VIEW, 0)
    else
      var p := payload.off + pos;
      var n := U16(mem, p);
      (pos + 2 + n + 1, View(p + 2, n), mem(p + 2 + n))
  }

  /** All topics from pos on, as a caller iterates until -1. */
  method ReadTopics(mem: Memory, payload: View) returns (ts: seq<TopicFilter>)
    ensures ts == TopicsFrom(mem, payload, 0)
  {
    ts := [];
    var pos: int := 0;
    while pos >= 0
      invariant pos >= 0 ==> TopicsFrom(mem, payload, 0) == ts + TopicsFrom(mem, payload, pos)
      invariant pos < 0 ==> ts == TopicsFrom(mem, payload, 0)
      decreases pos >= 0, payload.len - pos
    {
      var (next, topic, qos) := NextTopic(mem, payload, pos);
      if next >= 0 {
        ghost var rest := TopicsFrom(mem, payload, next);
        var t := TopicFilter(Text(mem, topic), qos);
        assert ts + ([t] + rest) == ts + [t] + rest;
        ts := ts + [t];
      } else {
        assert ts + [] == ts;
      }
      pos := next;
    }
  }

  ghost function TopicsFrom(mem: Memory, payload: View, pos: nat): seq<TopicFilter>
    decreases payload.len - pos
  {
    var (next, topic, qos) := NextTopic(mem, payload, pos);
    if next < 0 then [] else [TopicFilter(Text(mem, topic), qos)] + TopicsFrom(mem, payload, next)
  }

  lemma TopicsStep(mem: Memory, payload: View, pos: nat, n: uint16)
    requires pos < payload.len && U16(mem, payload.off + pos) == n
    ensures var p := payload.off + pos;
            TopicsFrom(mem, payload, pos) ==
              [TopicFilter(Text(mem, View(p + 2, n)), mem(p + 2 + n))] + TopicsFrom(mem, payload, pos + 3 + n)
  {
    hide U16, Text;
  }

  lemma FilterAt(mem: Memory, p: nat, t: TopicFilter, rest: seq<byte>)
    requires |t.topic| < 0x1_0000 && BodyAt(mem, p, FilterBytes(t) + rest)
    ensures var n := |t.topic|;
            && U16(mem, p) == n && Text(mem, View(p + 2, n)) == t.topic && mem(p + 2 + n) == t.qos
            && BodyAt(mem, p + 3 + n, rest)
  {
    hide Be16, Get16, U16, Text;
    var all, n := FilterBytes(t) + rest, |t.topic|;
    assert all[0..2] == Be16(n);
    U16Is(mem, p, all, 0);
    Be16RoundTrip(n);
    TextIs(mem, p, all, 2, 2 + n);
    assert all[2..2 + n] == t.topic;
    assert mem(p + (2 + n)) == all[2 + n] == t.qos;
    forall i | 0 <= i < |rest| ensures mem(p + 3 + n + i) == rest[i] {
      assert mem(p + (3 + n + i)) == all[3 + n + i];
    }
  }

  /** Every topic fits its length field. */
  predicate Fit(ts: seq<TopicFilter>) {
    forall k :: 0 <= k < |ts| ==> |ts[k].topic| < 0x1_0000
  }

  lemma {:induction false} TopicsRoundTrip(mem: Memory, payload: View, pos: nat, ts: seq<TopicFilter>)
    requires Fit(ts)
    requires BodyAt(mem, payload.off + pos, FiltersBytes(ts)) && pos + |FiltersBytes(ts)| == payload.len
    ensures TopicsFrom(mem, payload, pos) == ts
    decreases |ts|
  {
    hide U16, Text, BodyAt;
    if ts != [] {
      hide TopicsFrom;
      var n := |ts[0].topic|;
      FilterAt(mem, payload.off + pos, ts[0], FiltersBytes(ts[1..]));
      TopicsStep(mem, payload, pos, n);
      assert payload.off + (pos + 3 + n) == payload.off + pos + 3 + n;
      TopicsRoundTrip(mem, payload, pos + 3 + n, ts[1..]);
    }
  }

  /** Whatever is in memory, topics read from it fit their length field. */
  lemma {:induction false} ReadFits(mem: Memory, payload: View, pos: nat)
    ensures Fit(TopicsFrom(mem, payload, pos))
    decreases payload.len - pos
  {
    hide U16, Text;
    var (next, topic, qos) := NextTopic(mem, payload, pos);
    if next >= 0 {
      ReadFits(mem, payload, next);
    }
  }

  /** A buffered subscribe packet parses to its length and id, and iterating over its payload yields
      the topics subscribed to, in order, and then -1, exactly if every topic fits its length field. */
  lemma SubscribeRoundTrip(ts: seq<TopicFilter>, id: uint16, mem: Memory, avail: nat, overflow: Overflow)
    requires var s := Packet(SUBSCRIBE, 2, SubscribeBody(ts, id));
             avail == |s| && forall i :: 0 <= i < |s| ==> mem(i) == s[i]
    ensures var (r, mm) := Parse(mem, avail, overflow);
            |SubscribeBody(ts, id)| < INT_LIMIT ==>
              r == avail && mm.cmd == SUBSCRIBE && mm.messageId == id && (TopicsFrom(mem, mm.payload, 0) == ts <==> Fit(ts))
  {
    hide Parse, VarLength, FiltersBytes, TopicsFrom, BodyAt, U16, Be16, Get16;
    var body, filters := SubscribeBody(ts, id), FiltersBytes(ts);
    var s := Packet(SUBSCRIBE, 2, body);
    if |body| >= INT_LIMIT { return; }
    ParsePrefix(SUBSCRIBE, 2, body, mem, avail, overflow);
    var p0 := |s| - |body|;
    BodyInPacket(SUBSCRIBE, 2, body, mem);
    assert body == Be16(id) + filters && body[2..] == filters;
    assert body[0] == Be16(id)[0] && body[1] == Be16(id)[1];
    U16Is(mem, p0, body, 0);
    Be16RoundTrip(id);
    BodyTail(mem, p0, body, 2);
    ReadFits(mem, View(p0 + 2, |filters|), 0);
    if Fit(ts) {
      TopicsRoundTrip(mem, View(p0 + 2, |filters|), 0, ts);
    }
  }

  ghost predicate SubscribeComesBack(mem: Memory, ts: seq<TopicFilter>, id: uint16, overflow: Overflow) {
    var s := Packet(SUBSCRIBE, 2, SubscribeBody(ts, id));
    var (r, mm) := Parse(mem, |s|, overflow);
    r == |s| && mm.cmd == SUBSCRIBE && mm.messageId == id && TopicsFrom(mem, mm.payload, 0) == ts
  }

  /** A subscribe packet of any size comes back, whatever becomes of undefined shifts, exactly if its
      remaining length fits an int and every topic its length field. */
  lemma SubscribeRecovery(ts: seq<TopicFilter>, id: uint16, mem: Memory)
    requires var s := Packet(SUBSCRIBE, 2, SubscribeBody(ts, id)); forall i :: 0 <= i < |s| ==> mem(i) == s[i]
    ensures (forall overflow :: SubscribeComesBack(mem, ts, id, overflow)) <==>
              |SubscribeBody(ts, id)| < INT_LIMIT && Fit(ts)
  {
    hide Parse, TopicsFrom, Packet, SubscribeBody, Fit;
    var body := SubscribeBody(ts, id);
    var s := Packet(SUBSCRIBE, 2, body);
    LengthLimit(SUBSCRIBE, 2, body, mem);
    forall overflow: Overflow
      ensures |body| < INT_LIMIT ==> (SubscribeComesBack(mem, ts, id, overflow) <==> Fit(ts))
      ensures SubscribeComesBack(mem, ts, id, overflow) ==> Parse(mem, |s|, overflow).0 == |s|
    {
      SubscribeRoundTrip(ts, id, mem, |s|, overflow);
    }
    var zero: Overflow := (x, y) => 0;
    assert |body| < INT_LIMIT ==> (SubscribeComesBack(mem, ts, id, zero) <==> Fit(ts));
  }

  lemma BodyInPacket(cmd: nat, flags: nat, body: seq<byte>, mem: Memory)
    requires cmd < 16 && flags < 16
    requires var s := Packet(cmd, flags, body); forall i :: 0 <= i < |s| ==> mem(i) == s[i]
    ensures BodyAt(mem, |Packet(cmd, flags, body)| - |body|, body)
  {
    hide VarLength, BodyAt;
    TailAt([cmd * 16 + flags] + VarLength(|body|), body, mem);
  }

  lemma TailAt(front: seq<byte>, body: seq<byte>, mem: Memory)
    requires forall i :: 0 <= i < |front + body| ==> mem(i) == (front + body)[i]
    ensures BodyAt(mem, |front|, body)
  {
    var s, p := front + body, |front|;
    forall i | 0 <= i < |body| ensures mem(p + i) == body[i] {
      var j := p + i;
      assert mem(j) == s[j];
      assert s[j] == body[i];
    }
  }

  lemma BodyTail(mem: Memory, p0: nat, body: seq<byte>, k: nat)
    requires BodyAt(mem, p0, body) && k <= |body|
    ensures BodyAt(mem, p0 + k, body[k..])
  {
    forall i | 0 <= i < |body| - k ensures mem(p0 + k + i) == body[k..][i] {
      assert mem(p0 + (k + i)) == body[k + i];
    }
  }

  // ----- the senders

  /** mg_mqtt_prepend_header: the last len bytes queued become the body of a packet. */
  method PrependHeader(send: Mbuf, cmd: nat, flags: nat, len: nat)
    requires send.Valid() && len <= send.len && cmd < 16 && flags < 16
    modifies send, send.buf
    ensures send.Valid() && (send.buf == old(send.buf) || fresh(send.buf))
    ensures var was := old(send.Contents());
            send.Contents() == was[..|was| - len] + Packet(cmd, flags, was[|was| - len..])
  {
    hide VarLength;
    ghost var was := send.Contents();
    var off := send.len - len;
    var header: seq<byte> := [cmd * 16 + flags];
    var left, more := len, true;
    assert header + VarLength(len) == [cmd * 16 + flags] + VarLength(len);
    while more
      modifies {}
      invariant more ==> header + VarLength(left) == [cmd * 16 + flags] + VarLength(len)
      invariant !more ==> header == [cmd * 16 + flags] + VarLength(len)
      decreases left, more
    {
      var octet: byte := left % 0x80;
      VarLengthStep(left);
      ghost var before := header;
      if left / 0x80 > 0 {
        header := header + [octet + 0x80];
        assert before + ([octet + 0x80] + VarLength(left / 0x80)) == header + VarLength(left / 0x80);
      } else {
        header := header + [octet];
        more := false;
      }
      left := left / 0x80;
    }
    send.Insert(off, header);
    assert was[..off] + header + was[off..] == was[..off] + Packet(cmd, flags, was[off..]);
  }

  lemma VarLengthStep(n: nat)
    ensures VarLength(n) == if n / 0x80 == 0 then [n % 0x80] else [0x80 + n % 0x80] + VarLength(n / 0x80)
  {
  }

  /** mg_mqtt_publish */
  method Publish(send: Mbuf, topic: seq<byte>, id: uint16, flags: nat, data: seq<byte>)
    requires send.Valid() && flags < 16
    modifies send, send.buf
    ensures send.Valid() && (send.buf == old(send.buf) || fresh(send.buf))
    ensures send.Contents() == old(send.Contents()) + Packet(PUBLISH, flags, PublishBody(topic, id, flags, data))
  {
    hide Be16, VarLength, Packet;
    ghost var was := send.Contents();
    var oldLen := send.len;
    send.Append(Be16(|topic| % 0x1_0000));
    send.Append(topic);
    ghost var front := Be16(|topic| % 0x1_0000) + topic;
    assert send.Contents() == was + front;
    if flags / 2 % 4 > 0 {
      send.Append(Be16(id));
      assert was + front + Be16(id) == was + (front + Be16(id));
    } else {
      assert front + [] == front;
    }
    send.Append(data);
    ghost var body := PublishBody(topic, id, flags, data);
    assert send.Contents() == was + body;
    assert (was + body)[..oldLen] == was && (was + body)[oldLen..] == body;
    PrependHeader(send, PUBLISH, flags, send.len - oldLen);
  }

  /** mg_mqtt_subscribe */
  method Subscribe(send: Mbuf, topics: seq<TopicFilter>, id: uint16)
    requires send.Valid()
    modifies send, send.buf
    ensures send.Valid() && (send.buf == old(send.buf) || fresh(send.buf))
    ensures send.Contents() == old(send.Contents()) + Packet(SUBSCRIBE, 2, SubscribeBody(topics, id))
  {
    hide Be16, VarLength, Packet, FilterBytes;
    ghost var was := send.Contents();
    var oldLen := send.len;
    send.Append(Be16(id));
    ghost var all := SubscribeBody(topics, id);
    assert topics[0..] == topics;
    for i := 0 to |topics|
      invariant send.Valid() && (send.buf == old(send.buf) || fresh(send.buf))
      invariant send.Contents() + FiltersBytes(topics[i..]) == was + all
      invariant send.len >= oldLen
    {
      ghost var before, rest := send.Contents(), FiltersBytes(topics[i + 1..]);
      assert topics[i..][1..] == topics[i + 1..];
      AppendFilter(send, topics[i]);
      assert before + (FilterBytes(topics[i]) + rest) == send.Contents() + rest;
    }
    assert send.Contents() + [] == send.Contents();
    assert (was + all)[..oldLen] == was && (was + all)[oldLen..] == all;
    PrependHeader(send, SUBSCRIBE, 2, send.len - oldLen);
  }

  method AppendFilter(send: Mbuf, t: TopicFilter)
    requires send.Valid()
    modifies send, send.buf
    ensures send.Valid() && (send.buf == old(send.buf) || fresh(send.buf))
    ensures send.Contents() == old(send.Contents()) + FilterBytes(t)
  {
    hide Be16;
    ghost var was := send.Contents();
    send.Append(Be16(|t.topic| % 0x1_0000));
    send.Append(t.topic);
    send.Append([t.qos]);
    assert send.Contents() == was + FilterBytes(t);
  }
}
