/** MQTT connect packets and acknowledgements (sections 3.1 to 3.7 and 3.9 of MQTT 3.1.1): what the client
    and the server send, and what the parser makes of it. */
module MqttSession {
  import opened Bytes
  import opened MbufModel
  import opened Mqtt
  import T = Text

  const HAS_WILL: nat := 0x04
  const HAS_PASSWORD: nat := 0x40
  const HAS_USER_NAME: nat := 0x80

  datatype Will = Will(topic: seq<byte>, message: seq<byte>)

  /** What a caller asks for: flags are the further connect flags it sets itself. */
  datatype Session = Session(
    flags: byte, keepAlive: uint16, clientId: seq<byte>,
    will: T.Option<Will>, userName: T.Option<seq<byte>>, password: T.Option<seq<byte>>)

  /** The caller leaves the flags of the optional fields to the sender. */
  predicate Proper(c: Session) {
    !Has(c.flags, HAS_WILL) && !Has(c.flags, HAS_PASSWORD) && !Has(c.flags, HAS_USER_NAME)
  }

  function Flags(c: Session): (f: byte)
    requires Proper(c)
    ensures Has(f, HAS_WILL) == c.will.Some? && Has(f, HAS_PASSWORD) == c.password.Some?
    ensures Has(f, HAS_USER_NAME) == c.userName.Some?
  {
    WithBits(c.flags, if c.will.Some? then 1 else 0, if c.password.Some? then 1 else 0, if c.userName.Some? then 1 else 0)
  }

  function WithBits(f: byte, w: nat, p: nat, u: nat): (g: byte)
    requires w <= 1 && p <= 1 && u <= 1
    requires !Has(f, HAS_WILL) && !Has(f, HAS_PASSWORD) && !Has(f, HAS_USER_NAME)
    ensures Has(g, HAS_WILL) == (w == 1) && Has(g, HAS_PASSWORD) == (p == 1) && Has(g, HAS_USER_NAME) == (u == 1)
  {
    f + 4 * w + 64 * p + 128 * u
  }

  // ----- the connect packet

  const PROTOCOL: seq<byte> := [77, 81, 73, 115, 100, 112]  // MQIsdp

  function Str(x: seq<byte>): seq<byte> {
    Be16(|x| % 0x1_0000) + x
  }

  function Opt(o: T.Option<seq<byte>>): seq<byte> {
    match o case None => [] case Some(x) => Str(x)
  }

  function WillBytes(o: T.Option<Will>): seq<byte> {
    match o case None => [] case Some(w) => Str(w.topic) + Str(w.message)
  }

  function KeepAlive(c: Session): uint16 {
    if c.keepAlive == 0 then 60 else c.keepAlive
  }

  function ConnectBody(c: Session): seq<byte>
    requires Proper(c)
  {
    Str(PROTOCOL) + ([3, Flags(c)] + (Be16(KeepAlive(c)) + (Str(c.clientId)
      + (WillBytes(c.will) + (Opt(c.userName) + Opt(c.password))))))
  }

  /** rem_len, added up in a uint8_t. */
  function RemainingLength(c: Session): byte {
    var size := (o: T.Option<seq<byte>>) => match o case None => 0 case Some(x) => |x| % 0x100 + 2;
    (9 + 1 + 2 + 2 + |c.clientId| % 0x100 + size(c.userName) + size(c.password)
     + (match c.will case None => 0 case Some(w) => |w.topic| % 0x100 + 2 + |w.message| % 0x100 + 2)) % 0x100
  }

  function ConnectPacket(c: Session): seq<byte>
    requires Proper(c)
  {
    [CONNECT * 16, RemainingLength(c)] + ConnectBody(c)
  }

  lemma PartSizes(c: Session)
    requires Proper(c)
    ensures |ConnectBody(c)| == 14 + |c.clientId| + |WillBytes(c.will)| + |Opt(c.userName)| + |Opt(c.password)|
  {
    hide Be16, Flags, WillBytes, Opt;
    assert |Str(PROTOCOL)| == 8 by { Six(); }
  }

  lemma BodySize(c: Session)
    requires Proper(c)
    ensures |ConnectBody(c)| == 14 + |c.clientId| + |WillBytes(c.will)| + |Opt(c.userName)| + |Opt(c.password)|
    ensures RemainingLength(c) == |ConnectBody(c)| % 0x100
  {
    hide Be16, Flags, ConnectBody;
    PartSizes(c);
    var length := (o: T.Option<seq<byte>>) => match o case None => 0 case Some(x) => |x|;
    SumMod(14 + (if c.will.Some? then 4 else 0) + (if c.userName.Some? then 2 else 0) + (if c.password.Some? then 2 else 0),
           |c.clientId|, length(c.userName), length(c.password),
           if c.will.Some? then |c.will.value.topic| else 0, if c.will.Some? then |c.will.value.message| else 0);
  }

  lemma SumMod(k: nat, a: nat, b: nat, d: nat, e: nat, f: nat)
    ensures (k + a % 0x100 + b % 0x100 + d % 0x100 + e % 0x100 + f % 0x100) % 0x100 == (k + a + b + d + e + f) % 0x100
  {
    AddMod(k, a);
    AddMod(k + a, b);
    AddMod(k + a + b, d);
    AddMod(k + a + b + d, e);
    AddMod(k + a + b + d + e, f);
    SameMod(k + a % 0x100, k + a, b % 0x100);
    SameMod(k + a % 0x100 + b % 0x100, k + a + b, d % 0x100);
    SameMod(k + a % 0x100 + b % 0x100 + d % 0x100, k + a + b + d, e % 0x100);
    SameMod(k + a % 0x100 + b % 0x100 + d % 0x100 + e % 0x100, k + a + b + d + e, f % 0x100);
  }

  lemma AddMod(x: nat, y: nat)
    ensures (x + y % 0x100) % 0x100 == (x + y) % 0x100
  {
  }

  lemma SameMod(x: nat, y: nat, z: nat)
    requires x % 0x100 == y % 0x100
    ensures (x + z) % 0x100 == (y + z) % 0x100
  {
    AddMod(z, x);
    AddMod(z, y);
  }

  /** mg_send_mqtt_handshake_opt */
  method SendHandshake(send: Mbuf, c: Session)
    requires send.Valid() && Proper(c)
    modifies send, send.buf
    ensures send.Valid() && (send.buf == old(send.buf) || fresh(send.buf))
    ensures send.Contents() == old(send.Contents()) + ConnectPacket(c)
  {
    hide Be16, RemainingLength, Flags, WillBytes, Opt, Str, FixedPart, ConnectPacket;
    ghost var was := send.Contents();
    SendFixed(send, c);
    SendString(send, c.clientId);
    SendWill(send, c.will);
    SendOptional(send, c.userName);
    SendOptional(send, c.password);
    Joined(was, FixedPart(c), Str(c.clientId), WillBytes(c.will), Opt(c.userName), Opt(c.password));
    PacketParts(c);
  }

  lemma Joined(was: seq<byte>, f: seq<byte>, x: seq<byte>, y: seq<byte>, z: seq<byte>, u: seq<byte>)
    ensures was + f + x + y + z + u == was + (f + (x + (y + (z + u))))
  {
  }

  function FixedPart(c: Session): seq<byte>
    requires Proper(c)
  {
    [CONNECT * 16, RemainingLength(c)] + (Str(PROTOCOL) + ([3, Flags(c)] + Be16(KeepAlive(c))))
  }

  lemma PacketParts(c: Session)
    requires Proper(c)
    ensures ConnectPacket(c) == FixedPart(c) + (Str(c.clientId) + (WillBytes(c.will) + (Opt(c.userName) + Opt(c.password))))
  {
    hide Be16, RemainingLength, Flags, WillBytes, Opt, Str;
    var rest := Str(c.clientId) + (WillBytes(c.will) + (Opt(c.userName) + Opt(c.password)));
    var k, f, p := Be16(KeepAlive(c)), [3, Flags(c)], Str(PROTOCOL);
    assert p + (f + (k + rest)) == p + (f + k) + rest;
  }

  method SendFixed(send: Mbuf, c: Session)
    requires send.Valid() && Proper(c)
    modifies send, send.buf
    ensures send.Valid() && (send.buf == old(send.buf) || fresh(send.buf))
    ensures send.Contents() == old(send.Contents()) + FixedPart(c)
  {
    hide Be16, RemainingLength, Flags, KeepAlive, FixedPart, Str;
    ghost var was := send.Contents();
    var a, b, p, f, k: seq<byte> := [CONNECT * 16], [RemainingLength(c)], [0, 6] + PROTOCOL + [3], [Flags(c)], Be16(KeepAlive(c));
    send.Append(a);
    send.Append(b);
    send.Append(p);
    send.Append(f);
    send.Append(k);
    Joined(was, a, b, p, f, k);
    FixedIs(c);
  }

  lemma FixedIs(c: Session)
    requires Proper(c)
    ensures FixedPart(c) == [CONNECT * 16] + ([RemainingLength(c)] + ([0, 6] + PROTOCOL + [3] + ([Flags(c)] + Be16(KeepAlive(c)))))
  {
    hide Be16, RemainingLength, Flags, KeepAlive;
    Six();
  }

  method SendOptional(send: Mbuf, o: T.Option<seq<byte>>)
    requires send.Valid()
    modifies send, send.buf
    ensures send.Valid() && (send.buf == old(send.buf) || fresh(send.buf))
    ensures send.Contents() == old(send.Contents()) + Opt(o)
  {
    hide Str;
    ghost var was := send.Contents();
    if o.Some? {
      SendString(send, o.value);
    }
    assert was + [] == was;
  }

  method SendWill(send: Mbuf, o: T.Option<Will>)
    requires send.Valid()
    modifies send, send.buf
    ensures send.Valid() && (send.buf == old(send.buf) || fresh(send.buf))
    ensures send.Contents() == old(send.Contents()) + WillBytes(o)
  {
    hide Str;
    ghost var was := send.Contents();
    if o.Some? {
      SendString(send, o.value.topic);
      SendString(send, o.value.message);
      assert was + Str(o.value.topic) + Str(o.value.message) == was + WillBytes(o);
    }
    assert was + [] == was;
  }

  lemma Six()
    ensures Be16(|PROTOCOL| % 0x1_0000) == [0, 6]
  {
  }

  method SendString(send: Mbuf, x: seq<byte>)
    requires send.Valid()
    modifies send, send.buf
    ensures send.Valid() && (send.buf == old(send.buf) || fresh(send.buf))
    ensures send.Contents() == old(send.Contents()) + Str(x)
  {
    hide Be16;
    ghost var was := send.Contents();
    send.Append(Be16(|x| % 0x1_0000));
    send.Append(x);
    assert send.Contents() == was + Str(x);
  }

  // ----- and what is read of it

  predicate Stands(mem: Memory, v: View, o: T.Option<seq<byte>>) {
    match o case None => v == NO_VIEW case Some(x) => Text(mem, v) == x
  }

  predicate Recovered(mem: Memory, mm: Message, c: Session) {
    && mm.cmd == 1 && Text(mem, mm.protocolName) == [77, 81, 73, 115, 100, 112] && mm.protocolVersion == 3
    && mm.connectFlags == c.flags + (if c.will.Some? then 4 else 0) + (if c.password.Some? then 64 else 0)
                          + (if c.userName.Some? then 128 else 0)
    && (c.keepAlive > 0 ==> mm.keepAlive == c.keepAlive) && (c.keepAlive == 0 ==> mm.keepAlive == 60)
    && Text(mem, mm.clientId) == c.clientId
    && Stands(mem, mm.willTopic, if c.will.Some? then T.Some(c.will.value.topic) else T.None)
    && Stands(mem, mm.willMessage, if c.will.Some? then T.Some(c.will.value.message) else T.None)
    && Stands(mem, mm.userName, c.userName) && Stands(mem, mm.password, c.password)
  }

  lemma StrAt(mem: Memory, p: nat, x: seq<byte>, rest: seq<byte>)
    requires |x| < 0x1_0000 && BodyAt(mem, p, Str(x) + rest)
    ensures Scan(mem, p) == (View(p + 2, |x|), p + |Str(x)|) && Text(mem, View(p + 2, |x|)) == x
    ensures BodyAt(mem, p + |Str(x)|, rest)
  {
    hide Be16, Get16, BodyAt, Text, U16;
    var s, n := Str(x) + rest, |x|;
    assert s[0] == Be16(n)[0] && s[1] == Be16(n)[1] && s[2..2 + n] == x && s[2 + n..] == rest;
    U16Is(mem, p, s, 0);
    Be16RoundTrip(n);
    TextIs(mem, p, s, 2, 2 + n);
    BodyTail(mem, p, s, 2 + n);
  }

  lemma OptionalAt(mem: Memory, p: nat, o: T.Option<seq<byte>>, rest: seq<byte>, end: nat)
    requires (o.Some? ==> |o.value| < 0x1_0000) && BodyAt(mem, p, Opt(o) + rest) && end == p + |Opt(o) + rest|
    ensures var (v, q) := Optional(mem, p, end, o.Some?);
            Stands(mem, v, o) && q == p + |Opt(o)| && BodyAt(mem, q, rest) && end == q + |rest|
  {
    hide Scan, BodyAt, Text;
    if o.Some? {
      StrAt(mem, p, o.value, rest);
    } else {
      assert [] + rest == rest;
    }
  }

  lemma WillAt(mem: Memory, p: nat, o: T.Option<Will>, rest: seq<byte>, end: nat)
    requires o.Some? ==> |o.value.topic| < 0x1_0000 && |o.value.message| < 0x1_0000
    requires BodyAt(mem, p, WillBytes(o) + rest) && end == p + |WillBytes(o) + rest|
    ensures var (v, q) := Optional(mem, p, end, o.Some?);
            var (u, r) := Optional(mem, q, end, o.Some?);
            && Stands(mem, v, if o.Some? then T.Some(o.value.topic) else T.None)
            && Stands(mem, u, if o.Some? then T.Some(o.value.message) else T.None)
            && r == p + |WillBytes(o)| && BodyAt(mem, r, rest) && end == r + |rest|
  {
    hide Optional, BodyAt, Text, Stands;
    var topic := if o.Some? then T.Some(o.value.topic) else T.None;
    var message := if o.Some? then T.Some(o.value.message) else T.None;
    assert WillBytes(o) + rest == Opt(topic) + (Opt(message) + rest);
    OptionalAt(mem, p, topic, Opt(message) + rest, end);
    var (v, q) := Optional(mem, p, end, o.Some?);
    OptionalAt(mem, q, message, rest, end);
  }

  /** The fields in front of the optional ones. */
  lemma FixedFields(mem: Memory, p0: nat, c: Session, rest: seq<byte>)
    requires Proper(c) && |c.clientId| < 0x1_0000
    requires BodyAt(mem, p0, Str(PROTOCOL) + ([3, Flags(c)] + (Be16(KeepAlive(c)) + (Str(c.clientId) + rest))))
    ensures var (name, p) := Scan(mem, p0);
            var (id, q) := Scan(mem, p + 4);
            && p == p0 + 8 && Text(mem, name) == PROTOCOL && mem(p) == 3 && mem(p + 1) == Flags(c)
            && U16(mem, p + 2) == KeepAlive(c) && Text(mem, id) == c.clientId
            && q == p + 4 + |Str(c.clientId)| && BodyAt(mem, q, rest)
  {
    hide Scan, Text, U16, BodyAt, Be16, Get16, Flags;
    var tail := Str(c.clientId) + rest;
    var mid := Be16(KeepAlive(c)) + tail;
    var more := [3, Flags(c)] + mid;
    Six();
    StrAt(mem, p0, PROTOCOL, more);
    var p := p0 + 8;
    assert mem(p + 0) == more[0] && mem(p + 1) == more[1] by { Octets(mem, p, more); }
    assert more[2] == Be16(KeepAlive(c))[0] && more[3] == Be16(KeepAlive(c))[1] && more[4..] == tail;
    U16Is(mem, p, more, 2);
    Be16RoundTrip(KeepAlive(c));
    BodyTail(mem, p, more, 4);
    StrAt(mem, p + 4, c.clientId, rest);
  }

  lemma Octets(mem: Memory, p: nat, s: seq<byte>)
    requires BodyAt(mem, p, s)
    ensures forall i :: 0 <= i < |s| ==> mem(p + i) == s[i]
  {
  }

  lemma ConnectRead(mem: Memory, c: Session)
    requires Proper(c) && |ConnectBody(c)| < 0x1_0000 && BodyAt(mem, 2, ConnectBody(c))
    ensures Recovered(mem, ConnectFields(mem, 2, 2 + |ConnectBody(c)|, BLANK.(cmd := CONNECT)), c)
  {
    hide Scan, Text, U16, BodyAt, Be16, Optional, Stands, RemainingLength;
    var end := 2 + |ConnectBody(c)|;
    var rest := WillBytes(c.will) + (Opt(c.userName) + Opt(c.password));
    BodySize(c);
    FixedFields(mem, 2, c, rest);
    var q := 14 + |Str(c.clientId)|;
    assert Optional(mem, 14, end, true) == Scan(mem, 14) by { Present(mem, 14, end); }
    WillAt(mem, q, c.will, Opt(c.userName) + Opt(c.password), end);
    var r := q + |WillBytes(c.will)|;
    OptionalAt(mem, r, c.userName, Opt(c.password), end);
    assert Opt(c.password) + [] == Opt(c.password);
    OptionalAt(mem, r + |Opt(c.userName)|, c.password, [], end);
  }

  lemma Present(mem: Memory, p: nat, end: nat)
    requires p < end
    ensures Optional(mem, p, end, true) == Scan(mem, p)
  {
  }

  /** The connect packet is parsed to what was asked for exactly if its remaining length, for which it
      has one octet, is below 128. */
  lemma HandshakeRoundTrip(c: Session, mem: Memory, overflow: Overflow)
    requires Proper(c)
    requires var s := ConnectPacket(c); forall i :: 0 <= i < |s| ==> mem(i) == s[i]
    ensures var s := ConnectPacket(c);
            var (r, mm) := Parse(mem, |s|, overflow);
            r == |s| && Recovered(mem, mm, c) <==> |ConnectBody(c)| < 128
  {
    hide ConnectBody, ConnectFields, Recovered, RemainingLength, Parse;
    var s, body := ConnectPacket(c), ConnectBody(c);
    BodySize(c);
    if |body| < 128 {
      assert VarLength(|body|) == [|body|];
      assert s == Packet(CONNECT, 0, body);
      ParsePrefix(CONNECT, 0, body, mem, |s|, overflow);
      forall i | 0 <= i < |body| ensures mem(2 + i) == body[i] {
        assert s[2 + i] == body[i];
      }
      ConnectRead(mem, c);
    } else {
      TooLong(c, mem, overflow);
    }
  }

  lemma TooLong(c: Session, mem: Memory, overflow: Overflow)
    requires Proper(c) && |ConnectBody(c)| >= 128
    requires var s := ConnectPacket(c); forall i :: 0 <= i < |s| ==> mem(i) == s[i]
    ensures Parse(mem, |ConnectPacket(c)|, overflow).0 != |ConnectPacket(c)|
  {
    hide *;
    var n := |ConnectPacket(c)|;
    BodySize(c);
    FirstOctets(c, mem);
    ParseIs(mem, n, overflow);
    TwoLengthOctets(mem, n, overflow);
    Misses(n - 2);
  }

  lemma FirstOctets(c: Session, mem: Memory)
    requires Proper(c)
    requires var s := ConnectPacket(c); forall i :: 0 <= i < |s| ==> mem(i) == s[i]
    ensures |ConnectPacket(c)| == 2 + |ConnectBody(c)| > 2 && mem(1) == RemainingLength(c) && mem(2) == 0
  {
    hide RemainingLength, ConnectBody, Proper;
    var s := ConnectPacket(c);
    Begins(c);
    assert mem(1) == s[1] && mem(2) == s[2];
  }

  /** One octet of a length of 128 or more stands for less. */
  lemma Misses(size: nat)
    requires size >= 128
    ensures var b := size % 0x100; b % 0x80 + (if b >= 0x80 then 1 else 0) < size
  {
  }

  /** A length octet with a zero octet behind it. */
  lemma TwoLengthOctets(mem: Memory, avail: nat, overflow: Overflow)
    requires avail >= 3 && mem(2) == 0
    ensures LengthFrom(mem, avail, 0, 0, overflow) == (mem(1) % 0x80, if mem(1) >= 0x80 then 2 else 1)
  {
    hide LengthFrom;
    Powers();
    LengthStep(mem, avail, 0, 0, overflow);
    LengthStep(mem, avail, 1, mem(1) % 0x80, overflow);
  }

  lemma Begins(c: Session)
    requires Proper(c)
    ensures |ConnectBody(c)| > 0 && ConnectBody(c)[0] == 0
  {
    hide Be16;
    Six();
    assert Str(PROTOCOL)[0] == Be16(|PROTOCOL| % 0x1_0000)[0];
  }

  // ----- acknowledgements

  /** mg_mqtt_connack */
  method SendConnack(send: Mbuf, code: byte)
    requires send.Valid()
    modifies send, send.buf
    ensures send.Valid() && (send.buf == old(send.buf) || fresh(send.buf))
    ensures send.Contents() == old(send.Contents()) + Packet(CONNACK, 0, [0, code])
  {
    hide Packet;
    ghost var was := send.Contents();
    send.Append([0]);
    send.Append([code]);
    assert send.Contents() == was + [0, code];
    assert (was + [0, code])[..|was|] == was && (was + [0, code])[|was|..] == [0, code];
    PrependHeader(send, CONNACK, 0, 2);
  }

  /** mg_send_mqtt_short_command, and mg_mqtt_suback with the granted QoS behind the message id. */
  method SendShort(send: Mbuf, cmd: nat, id: uint16, qoss: seq<byte>)
    requires send.Valid() && cmd < 16
    modifies send, send.buf
    ensures send.Valid() && (send.buf == old(send.buf) || fresh(send.buf))
    ensures send.Contents() == old(send.Contents()) + Packet(cmd, 2, Be16(id) + qoss)
  {
    hide Packet, Be16;
    ghost var was := send.Contents();
    send.Append(Be16(id));
    send.Append(qoss);
    ghost var body := Be16(id) + qoss;
    assert send.Contents() == was + body;
    assert (was + body)[..|was|] == was && (was + body)[|was|..] == body;
    PrependHeader(send, cmd, 2, 2 + |qoss|);
  }

  /** The return code of a connack. */
  lemma ConnackRead(code: byte, mem: Memory, overflow: Overflow)
    requires var s := Packet(CONNACK, 0, [0, code]); forall i :: 0 <= i < |s| ==> mem(i) == s[i]
    ensures Parse(mem, 4, overflow) == (4, BLANK.(cmd := CONNACK, connackRetCode := code))
  {
    hide Parse, VarLength;
    var s := Packet(CONNACK, 0, [0, code]);
    Two();
    assert |s| == 4 && mem(3) == s[3] == code;
    ParsePrefix(CONNACK, 0, [0, code], mem, |s|, overflow);
  }

  /** The message id of every packet that is parsed for one: publish and subscribe acknowledgements,
      but not those of unsubscribing. */
  lemma AcknowledgementRead(cmd: nat, id: uint16, qoss: seq<byte>, mem: Memory, overflow: Overflow)
    requires 4 <= cmd <= 11 && cmd != SUBSCRIBE && |qoss| < INT_LIMIT - 2
    requires var s := Packet(cmd, 2, Be16(id) + qoss); forall i :: 0 <= i < |s| ==> mem(i) == s[i]
    ensures var s := Packet(cmd, 2, Be16(id) + qoss);
            Parse(mem, |s|, overflow) == (|s|, BLANK.(cmd := cmd, qos := 1, messageId := if cmd <= 9 then id else 0))
  {
    hide Parse, VarLength, Be16, Get16, BodyAt, U16;
    var body := Be16(id) + qoss;
    var s := Packet(cmd, 2, body);
    var p := |s| - |body|;
    ParsePrefix(cmd, 2, body, mem, |s|, overflow);
    BodyInPacket(cmd, 2, body, mem);
    U16Is(mem, p, body, 0);
    assert body[0] == Be16(id)[0] && body[1] == Be16(id)[1];
    Be16RoundTrip(id);
  }

  lemma Two()
    ensures VarLength(2) == [2]
  {
  }
}
