/** CoAP messages (section 3 of RFC 7252) as values: what the composer writes, what the parser reads. */
module CoapCodec {
  import opened Bytes

  datatype Option = Option(number: uint32, value: seq<byte>)

  datatype Message = Message(
    msgType: byte, codeClass: byte, codeDetail: byte, msgId: uint16,
    token: seq<byte>, options: seq<Option>, payload: seq<byte>)

  // flag bits; the error groups all contain ERROR
  const TYPE_FIELD: nat := 0x2
  const CODE_CLASS_FIELD: nat := 0x4
  const CODE_DETAIL_FIELD: nat := 0x8
  const MSG_ID_FIELD: nat := 0x10
  const TOKEN_FIELD: nat := 0x20
  const OPTION_FIELD: nat := 0x40
  const PAYLOAD_FIELD: nat := 0x80
  const ERROR: nat := 0x1_0000
  const FORMAT_ERROR: nat := 0x3_0000
  const IGNORE: nat := 0x5_0000
  const NOT_ENOUGH_DATA: nat := 0x9_0000

  /** The largest value a 16-bit extension can carry. */
  const EXT_MAX: nat := 0xFFFF + 269

  // ----- the option list

  /** Before the first option with a larger number. */
  function InsertBefore(os: seq<Option>, o: Option): seq<Option> {
    if os == [] || os[0].number > o.number then [o] + os else [os[0]] + InsertBefore(os[1..], o)
  }

  /** mg_coap_add_option on a list: at the end if the last option allows it. */
  function Add(os: seq<Option>, o: Option): seq<Option> {
    if os == [] || os[|os| - 1].number <= o.number then os + [o] else InsertBefore(os, o)
  }

  function AddAll(os: seq<Option>): seq<Option> {
    if os == [] then [] else Add(AddAll(os[..|os| - 1]), os[|os| - 1])
  }

  predicate Sorted(os: seq<Option>) {
    forall i, j :: 0 <= i < j < |os| ==> os[i].number <= os[j].number
  }

  function WithNumber(os: seq<Option>, n: uint32): seq<Option> {
    if os == [] then []
    else (if os[0].number == n then [os[0]] else []) + WithNumber(os[1..], n)
  }

  lemma {:induction false} WithNumberAppend(x: seq<Option>, y: seq<Option>, n: uint32)
    ensures WithNumber(x + y, n) == WithNumber(x, n) + WithNumber(y, n)
  {
    if x == [] {
      assert x + y == y;
    } else {
      assert (x + y)[1..] == x[1..] + y && (x + y)[0] == x[0];
      WithNumberAppend(x[1..], y, n);
      var first := if x[0].number == n then [x[0]] else [];
      assert first + (WithNumber(x[1..], n) + WithNumber(y, n)) == first + WithNumber(x[1..], n) + WithNumber(y, n);
    }
  }

  lemma {:induction false} InsertBeforeSplits(os: seq<Option>, o: Option) returns (k: nat)
    ensures k <= |os| && InsertBefore(os, o) == os[..k] + [o] + os[k..]
    ensures (forall i :: 0 <= i < k ==> os[i].number <= o.number) && (k < |os| ==> os[k].number > o.number)
  {
    if os == [] || os[0].number > o.number {
      k := 0;
    } else {
      k := InsertBeforeSplits(os[1..], o);
      assert os == [os[0]] + os[1..];
      k := k + 1;
    }
  }

  /** Adding puts the new option behind all with numbers up to its own. */
  lemma AddSplits(os: seq<Option>, o: Option) returns (k: nat)
    requires Sorted(os)
    ensures k <= |os| && Add(os, o) == os[..k] + ([o] + os[k..]) && Sorted(Add(os, o))
    ensures forall i :: k <= i < |os| ==> os[i].number > o.number
  {
    hide InsertBefore;
    if os == [] || os[|os| - 1].number <= o.number {
      k := |os|;
      assert os[..k] + ([o] + os[k..]) == os + [o];
    } else {
      k := InsertBeforeSplits(os, o);
      assert os[..k] + [o] + os[k..] == os[..k] + ([o] + os[k..]);
    }
  }

  /** Adding keeps the list sorted, and options of equal number in the order they came. */
  lemma AddStable(os: seq<Option>, o: Option, n: uint32)
    requires Sorted(os)
    ensures Sorted(Add(os, o))
    ensures WithNumber(Add(os, o), n) == WithNumber(os + [o], n)
    ensures multiset(Add(os, o)) == multiset(os + [o])
  {
    hide WithNumber, Add;
    var k := AddSplits(os, o);
    var front, back := os[..k], os[k..];
    assert os == front + back;
    WithNumberAppend(front, [o] + back, n);
    WithNumberAppend([o], back, n);
    WithNumberAppend(os, [o], n);
    WithNumberAppend(front, back, n);
    OtherNumbers(back, o, n);
    assert WithNumber(front, n) + (WithNumber(back, n) + WithNumber([o], n))
        == WithNumber(front, n) + WithNumber(back, n) + WithNumber([o], n);
  }

  lemma OtherNumbers(back: seq<Option>, o: Option, n: uint32)
    requires forall i :: 0 <= i < |back| ==> back[i].number > o.number
    ensures WithNumber([o], n) + WithNumber(back, n) == WithNumber(back, n) + WithNumber([o], n)
  {
    if n == o.number {
      NoneWithNumber(back, n);
    }
  }

  lemma NoneWithNumber(os: seq<Option>, n: uint32)
    requires forall i :: 0 <= i < |os| ==> os[i].number != n
    ensures WithNumber(os, n) == []
  {
  }

  /** After any sequence of additions the list is the stable sort by number of what was added. */
  lemma {:induction false} AddAllIsStableSort(os: seq<Option>, n: uint32)
    ensures Sorted(AddAll(os)) && multiset(AddAll(os)) == multiset(os)
    ensures WithNumber(AddAll(os), n) == WithNumber(os, n)
  {
    hide WithNumber, Add;
    if os != [] {
      var init, last := os[..|os| - 1], os[|os| - 1];
      assert os == init + [last];
      AddAllIsStableSort(init, n);
      AddStable(AddAll(init), last, n);
      WithNumberAppend(AddAll(init), [last], n);
      WithNumberAppend(init, [last], n);
    }
  }

  // ----- composing

  /** coap_split_opt: the nibble, and the extension octets behind the option header. */
  function Nibble(v: nat): (b: byte)
    ensures b < 15
  {
    if v < 13 then v else if v <= 0xFF + 13 then 13 else if v <= EXT_MAX then 14 else 0
  }

  function Extension(v: nat): seq<byte> {
    if v < 13 then [] else if v <= 0xFF + 13 then [v - 13] else if v <= EXT_MAX then Be16(v - 269) else []
  }

  function EncodeOption(prev: uint32, o: Option): seq<byte>
    requires prev <= o.number
  {
    [Nibble(o.number - prev) * 16 + Nibble(|o.value|)]
    + Extension(o.number - prev) + Extension(|o.value|) + o.value
  }

  predicate Ascending(prev: uint32, os: seq<Option>)
    decreases |os|
  {
    os == [] || (prev <= os[0].number && Ascending(os[0].number, os[1..]))
  }

  function EncodeOptions(prev: uint32, os: seq<Option>): seq<byte>
    requires Ascending(prev, os)
    decreases |os|
  {
    if os == [] then [] else EncodeOption(prev, os[0]) + EncodeOptions(os[0].number, os[1..])
  }

  function EncodePayload(payload: seq<byte>): seq<byte> {
    if payload == [] then [] else [0xFF] + payload
  }

  function EncodeHeader(m: Message): seq<byte>
    requires m.msgType <= 3 && |m.token| <= 8 && m.codeClass <= 7 && m.codeDetail <= 31
  {
    [0x40 + m.msgType * 16 + |m.token|, m.codeClass * 32 + m.codeDetail] + Be16(m.msgId) + m.token
  }

  function EncodeBody(m: Message): seq<byte>
    requires Check(m) == 0
  {
    CheckedOptions(m);
    EncodeOptions(0, m.options) + EncodePayload(m.payload)
  }

  function Encode(m: Message): seq<byte>
    requires Check(m) == 0
  {
    EncodeHeader(m) + EncodeBody(m)
  }

  /** The options part of coap_calculate_packet_size: in order, and within what can be encoded. */
  function CheckOptions(prev: nat, os: seq<Option>): nat
    decreases |os|
  {
    if os == [] then 0
    else if (|os| > 1 && os[0].number > os[1].number) || |os[0].value| > EXT_MAX
         || os[0].number - prev > EXT_MAX
    then ERROR + OPTION_FIELD
    else CheckOptions(os[0].number, os[1..])
  }

  /** What mg_coap_compose returns: 0, or the first field it refuses. */
  function Check(m: Message): nat {
    if m.msgType > 3 then ERROR + TYPE_FIELD
    else if |m.token| > 8 then ERROR + TOKEN_FIELD
    else if m.codeClass > 7 then ERROR + CODE_CLASS_FIELD
    else if m.codeDetail > 31 then ERROR + CODE_DETAIL_FIELD
    else CheckOptions(0, m.options)
  }

  predicate Encodable(prev: nat, os: seq<Option>)
    decreases |os|
  {
    os == [] || (prev <= os[0].number <= prev + EXT_MAX && |os[0].value| <= EXT_MAX
                 && Encodable(os[0].number, os[1..]))
  }

  lemma {:induction false} CheckMeansEncodable(prev: uint32, os: seq<Option>)
    requires os != [] ==> prev <= os[0].number
    ensures CheckOptions(prev, os) == 0 <==> Encodable(prev, os)
    ensures Encodable(prev, os) ==> Ascending(prev, os)
    decreases |os|
  {
    if os != [] {
      if |os| > 1 && os[0].number > os[1].number {
        assert !Encodable(os[0].number, os[1..]);
      } else {
        CheckMeansEncodable(os[0].number, os[1..]);
      }
    }
  }

  lemma CheckedOptions(m: Message)
    requires Check(m) == 0
    ensures Encodable(0, m.options) && Ascending(0, m.options)
  {
    CheckMeansEncodable(0, m.options);
  }

  /** coap_get_ext_opt_size */
  function ExtensionSize(v: nat): nat {
    if 13 <= v <= 0xFF + 13 then 1 else if 0xFF + 13 < v <= EXT_MAX then 2 else 0
  }

  function OptionsSize(prev: nat, os: seq<Option>): nat
    requires Encodable(prev, os)
    decreases |os|
  {
    if os == [] then 0
    else 1 + ExtensionSize(os[0].number - prev) + ExtensionSize(|os[0].value|) + |os[0].value|
         + OptionsSize(os[0].number, os[1..])
  }

  /** The size computed before anything is written is the number of octets written. */
  lemma {:induction false} OptionsSizeExact(prev: uint32, os: seq<Option>)
    requires Encodable(prev, os) && Ascending(prev, os)
    ensures OptionsSize(prev, os) == |EncodeOptions(prev, os)|
    decreases |os|
  {
    if os != [] {
      OptionsSizeExact(os[0].number, os[1..]);
    }
  }

  // ----- parsing

  datatype Ext = Short | Ext(value: uint16, size: nat)

  /** coap_get_ext_opt: s starts behind the octet that held nibble. */
  function GetExt(s: seq<byte>, nibble: byte): (r: Ext)
    ensures r.Ext? ==> r.size <= |s|
  {
    if nibble == 13 then (if |s| > 0 then Ext(s[0] as int + 13, 1) else Short)
    else if nibble == 14 then (if |s| > 1 then Ext((Get16(s[0], s[1]) + 269) % 0x1_0000, 2) else Short)
    else Ext(nibble, 0)
  }

  datatype OptionScan = OptionScan(options: seq<Option>, rest: seq<byte>, error: nat)

  /** One option at the front of s, if it is there: number, value length, where the value starts. */
  datatype OptionHead = BadHead(error: nat) | OptionHead(delta: uint16, length: uint16, start: nat)

  function GetHead(s: seq<byte>): (r: OptionHead)
    requires s != []
    ensures r.OptionHead? ==> 1 <= r.start <= |s|
  {
    var delta, length := s[0] / 16, s[0] % 16;
    if delta == 15 || length == 15 then BadHead(FORMAT_ERROR)
    else
      match GetExt(s[1..], delta)
      case Short => BadHead(NOT_ENOUGH_DATA)
      case Ext(d, n) =>
        match GetExt(s[1 + n..], length)
        case Short => BadHead(NOT_ENOUGH_DATA)
        case Ext(l, k) => OptionHead(d, l, 1 + n + k)
  }

  /** coap_get_options from s on, with acc already in the list. */
  function ScanOptions(s: seq<byte>, prev: uint16, acc: seq<Option>): (r: OptionScan)
    ensures r.error == 0 || r.error == FORMAT_ERROR || r.error == NOT_ENOUGH_DATA
    ensures r.error == 0 ==> r.rest == [] || r.rest[0] == 0xFF
    decreases |s|
  {
    if s == [] || s[0] == 0xFF then OptionScan(acc, s, 0)
    else
      match GetHead(s)
      case BadHead(e) => OptionScan([], [], e)
      case OptionHead(delta, length, start) =>
        var number := (delta + prev) % 0x1_0000;
        if start + length > |s| then OptionScan([], [], NOT_ENOUGH_DATA)
        else ScanOptions(s[start + length..], number, Add(acc, Option(number, s[start..start + length])))
  }

  const BLANK: Message := Message(0, 0, 0, 0, [], [], [])

  datatype Parsed = Parsed(flags: nat, message: Message)

  function ParseBody(s: seq<byte>, flags: nat, m: Message): Parsed {
    if s == [] then Parsed(flags, m)
    else
      var scan := ScanOptions(s, 0, []);
      if scan.error != 0 then Parsed(flags + scan.error, m)
      else
        var m' := m.(options := scan.options);
        if |scan.rest| <= 1 then Parsed(flags + OPTION_FIELD, m')
        else Parsed(flags + OPTION_FIELD + PAYLOAD_FIELD, m'.(payload := scan.rest[1..]))
  }

  /** coap_get_token, and what follows it: the header of s has been read into m. */
  function ParseToken(s: seq<byte>, tokenLen: nat, flags: nat, m: Message): Parsed
    requires |s| >= 4
  {
    if tokenLen == 0 then ParseBody(s[4..], flags, m)
    else if 4 + tokenLen > |s| then Parsed(flags + NOT_ENOUGH_DATA, m)
    else ParseBody(s[4 + tokenLen..], flags + TOKEN_FIELD, m.(token := s[4..4 + tokenLen]))
  }

  /** mg_coap_parse */
  function Parse(s: seq<byte>): Parsed {
    if |s| < 4 then Parsed(NOT_ENOUGH_DATA, BLANK)
    else if s[0] / 64 != 1 then Parsed(IGNORE, BLANK)
    else
      var m, tokenLen := BLANK.(msgType := s[0] / 16 % 4), s[0] % 16;
      if tokenLen > 8 then Parsed(TYPE_FIELD + FORMAT_ERROR, m)
      else
        ParseToken(s, tokenLen, TYPE_FIELD + CODE_CLASS_FIELD + CODE_DETAIL_FIELD + MSG_ID_FIELD,
                   m.(codeClass := s[1] / 32, codeDetail := s[1] % 32, msgId := Get16(s[2], s[3])))
  }

  // ----- the parser undoes the composer

  lemma ExtRoundTrip(v: uint16, s: seq<byte>)
    ensures GetExt(Extension(v) + s, Nibble(v)) == Ext(v, |Extension(v)|)
  {
    if v > 0xFF + 13 {
      Be16RoundTrip(v - 269);
    }
  }

  /** An option header never looks like the payload marker, and reads back as written. */
  lemma HeadRoundTrip(prev: uint16, o: Option, t: seq<byte>)
    requires prev <= o.number < 0x1_0000 && |o.value| < 0x1_0000
    ensures var s := EncodeOption(prev, o) + t;
            var start := |EncodeOption(prev, o)| - |o.value|;
            s != [] && s[0] != 0xFF && GetHead(s) == OptionHead(o.number - prev, |o.value|, start)
            && s[start..start + |o.value|] == o.value && s[start + |o.value|..] == t
  {
    hide Nibble, Extension, GetExt;
    var d, n := o.number - prev, |o.value|;
    var x, y := Extension(d), Extension(n);
    var s := EncodeOption(prev, o) + t;
    assert s == [Nibble(d) * 16 + Nibble(n)] + x + y + o.value + t;
    assert s[0] / 16 == Nibble(d) && s[0] % 16 == Nibble(n);
    assert s[1..] == x + (y + o.value + t);
    assert s[1 + |x|..] == y + (o.value + t);
    ExtRoundTrip(d, y + o.value + t);
    ExtRoundTrip(n, o.value + t);
  }

  predicate Fits(os: seq<Option>) {
    forall i :: 0 <= i < |os| ==> os[i].number < 0x1_0000 && |os[i].value| < 0x1_0000
  }

  lemma ScanStep(s: seq<byte>, prev: uint16, acc: seq<Option>, o: Option, rest: seq<byte>)
    requires s != [] && s[0] != 0xFF && prev <= o.number < 0x1_0000
    requires var h := GetHead(s);
             h.OptionHead? && h.delta == o.number - prev && h.start + h.length <= |s|
             && s[h.start..h.start + h.length] == o.value && s[h.start + h.length..] == rest
    requires acc != [] ==> acc[|acc| - 1].number <= o.number
    ensures ScanOptions(s, prev, acc) == ScanOptions(rest, o.number, acc + [o])
  {
    hide GetHead;
  }

  lemma EncodeOptionsStep(prev: uint32, os: seq<Option>, t: seq<byte>)
    requires Ascending(prev, os) && os != []
    ensures EncodeOptions(prev, os) + t == EncodeOption(prev, os[0]) + (EncodeOptions(os[0].number, os[1..]) + t)
  {
    hide EncodeOption;
  }

  lemma {:induction false} ScanRoundTrip(prev: uint16, os: seq<Option>, t: seq<byte>, acc: seq<Option>)
    requires Ascending(prev, os) && Fits(os) && (t == [] || t[0] == 0xFF)
    requires acc != [] ==> acc[|acc| - 1].number <= prev
    ensures ScanOptions(EncodeOptions(prev, os) + t, prev, acc) == OptionScan(acc + os, t, 0)
    decreases |os|
  {
    hide EncodeOption, GetHead, EncodeOptions, ScanOptions;
    if os == [] {
      NothingToScan(prev, t, acc);
      assert acc + os == acc;
    } else {
      var o, tail := os[0], os[1..];
      var rest := EncodeOptions(o.number, tail) + t;
      EncodeOptionsStep(prev, os, t);
      HeadRoundTrip(prev, o, rest);
      ScanStep(EncodeOption(prev, o) + rest, prev, acc, o, rest);
      ScanRoundTrip(o.number, tail, t, acc + [o]);
      assert acc + [o] + tail == acc + os;
    }
  }

  lemma NothingToScan(prev: uint16, t: seq<byte>, acc: seq<Option>)
    requires t == [] || t[0] == 0xFF
    ensures ScanOptions(EncodeOptions(prev, []) + t, prev, acc) == OptionScan(acc, t, 0)
  {
    assert EncodeOptions(prev, []) + t == t;
  }

  lemma BodyRoundTrip(m: Message, flags: nat, h: Message)
    requires Check(m) == 0 && Fits(m.options) && h.options == [] && h.payload == []
    ensures var s := EncodeBody(m);
            ParseBody(s, flags, h) ==
              Parsed(flags + (if s == [] then 0 else OPTION_FIELD) + (if m.payload == [] then 0 else PAYLOAD_FIELD),
                     h.(options := m.options, payload := m.payload))
    ensures EncodeBody(m) == [] <==> m.options == [] && m.payload == []
  {
    hide ScanOptions, EncodeOption;
    CheckedOptions(m);
    ScanRoundTrip(0, m.options, EncodePayload(m.payload), []);
    assert [] + m.options == m.options;
    if m.payload != [] {
      assert EncodePayload(m.payload)[1..] == m.payload;
    }
    if m.options != [] {
      HeadRoundTrip(0, m.options[0], []);
      assert EncodeOption(0, m.options[0]) + [] == EncodeOption(0, m.options[0]);
    }
  }

  /** The flags of a parse without error. */
  function FieldFlags(m: Message): nat {
    TYPE_FIELD + CODE_CLASS_FIELD + CODE_DETAIL_FIELD + MSG_ID_FIELD
    + (if m.token == [] then 0 else TOKEN_FIELD)
    + (if m.options == [] && m.payload == [] then 0 else OPTION_FIELD)
    + (if m.payload == [] then 0 else PAYLOAD_FIELD)
  }

  lemma HeaderRoundTrip(m: Message, t: seq<byte>)
    requires m.msgType <= 3 && |m.token| <= 8 && m.codeClass <= 7 && m.codeDetail <= 31
    ensures var h := m.(options := [], payload := []);
            Parse(EncodeHeader(m) + t) ==
              ParseBody(t, TYPE_FIELD + CODE_CLASS_FIELD + CODE_DETAIL_FIELD + MSG_ID_FIELD
                           + (if m.token == [] then 0 else TOKEN_FIELD), h)
  {
    hide ParseBody, Be16, Get16;
    var s, k := EncodeHeader(m) + t, |m.token|;
    assert s == [0x40 + m.msgType * 16 + k, m.codeClass * 32 + m.codeDetail] + Be16(m.msgId) + (m.token + t);
    assert s[2] == Be16(m.msgId)[0] && s[3] == Be16(m.msgId)[1];
    Be16RoundTrip(m.msgId);
    HeaderOctets(m.msgType, k, m.codeClass, m.codeDetail);
    assert s[4..] == m.token + t;
    assert s[4..4 + k] == m.token && s[4 + k..] == t;
  }

  lemma HeaderOctets(msgType: byte, k: nat, codeClass: byte, codeDetail: byte)
    requires msgType <= 3 && k <= 8 && codeClass <= 7 && codeDetail <= 31
    ensures var x, y := 0x40 + msgType * 16 + k, codeClass * 32 + codeDetail;
            x / 64 == 1 && x / 16 % 4 == msgType && x % 16 == k && y / 32 == codeClass && y % 32 == codeDetail
  {
  }

  // ----- and only when the options fit the parser's 16-bit fields

  lemma AddFits(os: seq<Option>, o: Option)
    requires Fits(os) && Fits([o])
    ensures Fits(Add(os, o))
  {
    assert [o][0] == o;
    if !(os == [] || os[|os| - 1].number <= o.number) {
      var k := InsertBeforeSplits(os, o);
    }
  }

  lemma {:induction false} ScanFits(s: seq<byte>, prev: uint16, acc: seq<Option>)
    requires Fits(acc)
    ensures Fits(ScanOptions(s, prev, acc).options)
    decreases |s|
  {
    hide GetHead, Add;
    if s != [] && s[0] != 0xFF {
      var h := GetHead(s);
      if h.OptionHead? && h.start + h.length <= |s| {
        var o := Option((h.delta + prev) % 0x1_0000, s[h.start..h.start + h.length]);
        AddFits(acc, o);
        ScanFits(s[h.start + h.length..], o.number, Add(acc, o));
      }
    }
  }

  /** For every message the composer accepts: parsing what it wrote gives the same message and no
      error exactly when option numbers and value lengths are below 65536. */
  lemma RoundTrip(m: Message)
    requires Check(m) == 0
    ensures Parse(Encode(m)) == Parsed(FieldFlags(m), m) <==> Fits(m.options)
  {
    hide Parse, ParseBody, EncodeHeader, EncodeBody;
    var t, h := EncodeBody(m), m.(options := [], payload := []);
    HeaderRoundTrip(m, t);
    var flags := TYPE_FIELD + CODE_CLASS_FIELD + CODE_DETAIL_FIELD + MSG_ID_FIELD
                 + (if m.token == [] then 0 else TOKEN_FIELD);
    if Fits(m.options) {
      BodyRoundTrip(m, flags, h);
      assert h.(options := m.options, payload := m.payload) == m;
    } else {
      BodyFits(t, flags, h);
    }
  }

  lemma BodyFits(s: seq<byte>, flags: nat, h: Message)
    requires h.options == []
    ensures Fits(ParseBody(s, flags, h).message.options)
  {
    hide ScanOptions;
    ScanFits(s, 0, []);
  }

  // ----- the octets, by the rules of section 3 of RFC 7252

  /** How many extension octets a nibble of an option header asks for. */
  function Octets(nibble: int): nat {
    if nibble == 13 then 1 else if nibble == 14 then 2 else 0
  }

  /** The number that a nibble and its extension octets stand for. */
  function Meaning(nibble: nat, ext: seq<byte>): nat {
    if nibble == 13 then Number(ext) + 13 else if nibble == 14 then Number(ext) + 269 else nibble
  }

  /** The composer's nibble and extension stand for the value, and ask for no octet more. */
  lemma ExtensionMeans(v: nat)
    requires v <= 65535 + 269
    ensures Nibble(v) < 15 && |Extension(v)| == Octets(Nibble(v)) && Meaning(Nibble(v), Extension(v)) == v
  {
    if 13 <= v <= 268 {
      NumberStep([v - 13]);
    } else if v > 268 {
      BigEndian16(v - 269, 0, 0);
    }
  }

  /** An option on the wire: two nibbles, the extensions they ask for, the value. */
  datatype Wire = Wire(d: byte, x: seq<byte>, n: byte, y: seq<byte>, value: seq<byte>)

  /** Neither nibble is 15; the numbers are those of 16-bit fields. */
  predicate WellFormed(w: Wire) {
    w.d < 15 && w.n < 15 && |w.x| == Octets(w.d) && |w.y| == Octets(w.n)
    && |w.value| == Meaning(w.n, w.y) % 65536
  }

  function WireOctets(w: Wire): seq<byte>
    requires w.d < 15 && w.n < 15
  {
    [w.d * 16 + w.n] + w.x + w.y + w.value
  }

  /** An encoded option is such a wire form, of its distance to the option before and of its length. */
  lemma OptionLayout(prev: uint32, o: Option) returns (w: Wire)
    requires prev <= o.number <= prev + 65804 && |o.value| <= 65804
    ensures w.d < 15 && w.n < 15 && |w.x| == Octets(w.d) && |w.y| == Octets(w.n) && w.value == o.value
    ensures EncodeOption(prev, o) == WireOctets(w)
    ensures Meaning(w.d, w.x) == o.number - prev && Meaning(w.n, w.y) == |o.value|
  {
    var d, n := o.number - prev, |o.value|;
    ExtensionMeans(d);
    ExtensionMeans(n);
    w := Wire(Nibble(d), Extension(d), Nibble(n), Extension(n), o.value);
  }

  /** A composed message: version 1, the type, the token length, the code, the message id with its most
      significant octet first, the token, the options, and behind an octet 255 the payload, if there is one. */
  lemma MessageLayout(m: Message)
    requires Check(m) == 0
    ensures var e, k := Encode(m), |m.token|;
            Ascending(0, m.options) && k <= 8 && |e| >= 4 + k && e[0] / 64 == 1 && e[0] / 16 % 4 == m.msgType
            && e[0] % 16 == k && e[1] / 32 == m.codeClass && e[1] % 32 == m.codeDetail
            && Number(e[2..4]) == m.msgId && e[4..4 + k] == m.token
            && e[4 + k..] == EncodeOptions(0, m.options) + if m.payload == [] then [] else [255] + m.payload
  {
    hide Check, CheckOptions, EncodeOptions, Be16, Number;
    var e, k, b := Encode(m), |m.token|, EncodeBody(m);
    CheckedFields(m);
    CheckedOptions(m);
    HeaderOctets(m.msgType, k, m.codeClass, m.codeDetail);
    assert e == [0x40 + m.msgType * 16 + k, m.codeClass * 32 + m.codeDetail] + Be16(m.msgId) + (m.token + b);
    assert e[2..4] == Be16(m.msgId) && e[4..] == m.token + b;
    assert e[4..4 + k] == m.token && e[4 + k..] == b;
    BigEndian16(m.msgId, 0, 0);
  }

  lemma CheckedFields(m: Message)
    requires Check(m) == 0
    ensures m.msgType <= 3 && |m.token| <= 8 && m.codeClass <= 7 && m.codeDetail <= 31
  {
  }

  /** The number that the distance of option i counts from. */
  function Before(prev: nat, os: seq<Option>, i: nat): nat
    requires i < |os|
  {
    if i == 0 then prev else os[i - 1].number
  }

  /** Options in ascending order, each at most 65804 behind the one before and at most so long. */
  predicate Writable(prev: nat, os: seq<Option>) {
    forall i :: 0 <= i < |os| ==>
      Before(prev, os, i) <= os[i].number <= Before(prev, os, i) + 65804 && |os[i].value| <= 65804
  }

  lemma {:induction false} EncodableIsWritable(prev: nat, os: seq<Option>)
    ensures Encodable(prev, os) <==> Writable(prev, os)
    decreases |os|
  {
    if os != [] {
      var next, rest := os[0].number, os[1..];
      EncodableIsWritable(next, rest);
      assert Before(prev, os, 0) == prev;
      forall i | 0 <= i < |rest|
        ensures Before(next, rest, i) == Before(prev, os, i + 1) && rest[i] == os[i + 1]
      {
      }
      if Writable(next, rest) && prev <= next <= prev + 65804 && |os[0].value| <= 65804 {
        forall i | 0 <= i < |os|
          ensures Before(prev, os, i) <= os[i].number <= Before(prev, os, i) + 65804 && |os[i].value| <= 65804
        {
          if i > 0 {
            assert Before(next, rest, i - 1) == Before(prev, os, i);
          }
        }
      }
    }
  }

  /** What the composer refuses, and which field it blames: the first of type, token, code class, code detail
      and options that does not fit its place. */
  lemma RefusedExactly(m: Message)
    ensures Check(m) ==
              if m.msgType > 3 then 0x1_0002
              else if |m.token| > 8 then 0x1_0020
              else if m.codeClass > 7 then 0x1_0004
              else if m.codeDetail > 31 then 0x1_0008
              else if Writable(0, m.options) then 0 else 0x1_0040
  {
    CheckOptionsRange(0, m.options);
    CheckMeansEncodable(0, m.options);
    EncodableIsWritable(0, m.options);
  }

  lemma CheckOptionsRange(prev: nat, os: seq<Option>)
    ensures CheckOptions(prev, os) == 0 || CheckOptions(prev, os) == 0x1_0040
    decreases |os|
  {
  }

  /** The header of an option on any octets: refused if a nibble is 15, too short if its extensions are not
      all there, and otherwise the numbers they stand for in 16-bit fields. */
  lemma HeadIs(s: seq<byte>)
    requires s != []
    ensures var d, n := s[0] / 16, s[0] % 16;
            var a, b := Octets(d), Octets(n);
            GetHead(s) ==
              if d == 15 || n == 15 then BadHead(0x3_0000)
              else if |s| < 1 + a + b then BadHead(0x9_0000)
              else OptionHead(Meaning(d, s[1..1 + a]) % 65536, Meaning(n, s[1 + a..1 + a + b]) % 65536, 1 + a + b)
  {
    hide Number;
    var d, n := s[0] / 16, s[0] % 16;
    var a, b := Octets(d), Octets(n);
    if d != 15 && n != 15 {
      ExtIs(s[1..], d);
      if |s| >= 1 + a {
        ExtIs(s[1 + a..], n);
        assert s[1..][..a] == s[1..1 + a];
        if |s| >= 1 + a + b {
          assert s[1 + a..][..b] == s[1 + a..1 + a + b];
        }
      }
    }
  }

  lemma ExtIs(s: seq<byte>, nibble: byte)
    requires nibble < 15
    ensures GetExt(s, nibble) ==
              if |s| < Octets(nibble) then Short
              else Ext(Meaning(nibble, s[..Octets(nibble)]) % 65536, Octets(nibble))
  {
    if nibble == 13 && s != [] {
      NumberStep(s[..1]);
    } else if nibble == 14 && |s| > 1 {
      Number2(s[..2]);
    }
  }

  predicate AllWellFormed(ws: seq<Wire>) {
    forall i :: 0 <= i < |ws| ==> WellFormed(ws[i])
  }

  function AllOctets(ws: seq<Wire>): seq<byte>
    requires AllWellFormed(ws)
  {
    if ws == [] then [] else WireOctets(ws[0]) + AllOctets(ws[1..])
  }

  /** The options that wire forms stand for behind an option of number prev: each number is the one before
      and the distance, in 16 bits. */
  function Meant(prev: uint16, ws: seq<Wire>): (os: seq<Option>)
    ensures |os| == |ws|
    ensures forall i :: 0 <= i < |os| ==> os[i].number < 65536
    decreases |ws|
  {
    if ws == [] then []
    else
      var number := (prev + Meaning(ws[0].d, ws[0].x)) % 65536;
      [Option(number, ws[0].value)] + Meant(number, ws[1..])
  }

  function Onto(acc: seq<Option>, os: seq<Option>): seq<Option>
    decreases |os|
  {
    if os == [] then acc else Onto(Add(acc, os[0]), os[1..])
  }

  lemma WireParts(w: Wire, t: seq<byte>)
    requires w.d < 15 && w.n < 15
    ensures var s, a, b, c := WireOctets(w) + t, |w.x|, |w.y|, |w.value|;
            |s| == 1 + a + b + c + |t| && s[0] == w.d * 16 + w.n
            && s[1..1 + a] == w.x && s[1 + a..1 + a + b] == w.y
            && s[1 + a + b..1 + a + b + c] == w.value && s[1 + a + b + c..] == t
  {
    var h, v := [w.d * 16 + w.n], w.value;
    assert WireOctets(w) + t == h + w.x + w.y + v + t;
  }

  lemma WireHead(w: Wire, t: seq<byte>)
    requires WellFormed(w)
    ensures var s, k := WireOctets(w) + t, 1 + |w.x| + |w.y|;
            s != [] && s[0] != 0xFF && GetHead(s) == OptionHead(Meaning(w.d, w.x) % 65536, |w.value|, k)
            && k + |w.value| <= |s| && s[k..k + |w.value|] == w.value && s[k + |w.value|..] == t
  {
    hide GetHead, Meaning, WireOctets, Octets;
    var s := WireOctets(w) + t;
    WireParts(w, t);
    Nibbles(w.d, w.n);
    HeadIs(s);
  }

  lemma Nibbles(d: byte, n: byte)
    requires d < 15 && n < 15
    ensures (d * 16 + n) / 16 == d && (d * 16 + n) % 16 == n && d * 16 + n != 255
  {
  }

  lemma WireStep(w: Wire, t: seq<byte>, prev: uint16, acc: seq<Option>)
    requires WellFormed(w)
    ensures var number := (prev + Meaning(w.d, w.x)) % 65536;
            ScanOptions(WireOctets(w) + t, prev, acc) == ScanOptions(t, number, Add(acc, Option(number, w.value)))
  {
    hide GetHead, Meaning, WireOctets, Add, WellFormed;
    WireHead(w, t);
    assert (Meaning(w.d, w.x) % 65536 + prev) % 65536 == (prev + Meaning(w.d, w.x)) % 65536;
  }

  /** Options written by anyone are read as what they stand for, and added in the order they came; what
      follows them is read with the number of the last. */
  lemma {:induction false} WireRead(ws: seq<Wire>, t: seq<byte>, prev: uint16, acc: seq<Option>)
    requires AllWellFormed(ws)
    ensures var os := Meant(prev, ws);
            ScanOptions(AllOctets(ws) + t, prev, acc)
            == ScanOptions(t, if os == [] then prev else os[|os| - 1].number, Onto(acc, os))
    decreases |ws|
  {
    hide ScanOptions, WireOctets, Meaning, Add;
    if ws == [] {
      assert AllOctets(ws) + t == t;
    } else {
      var w, rest := ws[0], AllOctets(ws[1..]) + t;
      var number := (prev + Meaning(w.d, w.x)) % 65536;
      assert AllOctets(ws) + t == WireOctets(w) + rest;
      WireStep(w, rest, prev, acc);
      WireRead(ws[1..], t, number, Add(acc, Option(number, w.value)));
      var tail := Meant(number, ws[1..]);
      assert Meant(prev, ws) == [Option(number, w.value)] + tail;
      assert ([Option(number, w.value)] + tail)[1..] == tail;
    }
  }

  /** Where the option loop ends without an error, and the two ways it gives up. */
  lemma WireEnds(t: seq<byte>, prev: uint16, acc: seq<Option>)
    ensures t == [] || t[0] == 255 ==> ScanOptions(t, prev, acc) == OptionScan(acc, t, 0)
    ensures t != [] && t[0] != 255 && (t[0] / 16 == 15 || t[0] % 16 == 15)
            ==> ScanOptions(t, prev, acc) == OptionScan([], [], 0x3_0000)
    ensures t != [] && t[0] / 16 != 15 && t[0] % 16 != 15
            && (var a, b := Octets(t[0] / 16), Octets(t[0] % 16);
                |t| < 1 + a + b || |t| < 1 + a + b + Meaning(t[0] % 16, t[1 + a..1 + a + b]) % 65536)
            ==> ScanOptions(t, prev, acc) == OptionScan([], [], 0x9_0000)
  {
    hide GetHead, Meaning;
    if t != [] {
      HeadIs(t);
    }
  }

  /** What the parser makes of the octets before the options: the field by which each is refused, in order,
      or the fields they hold. */
  lemma HeaderRead(s: seq<byte>)
    ensures |s| < 4 ==> Parse(s) == Parsed(0x9_0000, BLANK)
    ensures |s| >= 4 && s[0] / 64 != 1 ==> Parse(s) == Parsed(0x5_0000, BLANK)
    ensures |s| >= 4 && s[0] / 64 == 1 && s[0] % 16 > 8 ==> Parse(s).flags == 0x3_0002
    ensures |s| >= 4 && s[0] / 64 == 1 && s[0] % 16 <= 8 ==>
              var k, m := s[0] % 16, Message(s[0] / 16 % 4, s[1] / 32, s[1] % 32, Number(s[2..4]) % 65536, [], [], []);
              Parse(s) == if |s| < 4 + k then Parsed(0x9_001e, m)
                          else ParseBody(s[4 + k..], if k == 0 then 0x1e else 0x3e, m.(token := s[4..4 + k]))
  {
    hide ParseBody, Number;
    if |s| >= 4 {
      Number2(s[2..4]);
      assert s[4..4] == [];
    }
  }

  /** And of those behind it: an error of the option loop is reported, a payload only if there is one. */
  lemma BodyRead(s: seq<byte>, flags: nat, m: Message)
    requires s != []
    ensures var scan, r := ScanOptions(s, 0, []), ParseBody(s, flags, m);
            if scan.error != 0 then r == Parsed(flags + scan.error, m)
            else if |scan.rest| <= 1 then r == Parsed(flags + 0x40, m.(options := scan.options))
            else r == Parsed(flags + 0xc0, m.(options := scan.options, payload := scan.rest[1..]))
  {
  }
}
