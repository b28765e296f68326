/** CoAP messages in memory: the linked option list, composing into a buffer, parsing out of one. */
module Coap {
  import opened Bytes
  import opened MbufModel
  import opened CoapCodec

  class OptionNode {
    var number: uint32
    var value: seq<byte>
    var next: OptionNode?

    constructor (number: uint32, value: seq<byte>)
      ensures this.number == number && this.value == value && next == null
    {
      this.number, this.value, next := number, value, null;
    }
  }

  ghost predicate Distinct(nodes: seq<OptionNode>) {
    forall i, j :: 0 <= i < j < |nodes| ==> nodes[i] != nodes[j]
  }

  /** The nodes of a list in order, each linked to the one after it. */
  ghost predicate Linked(nodes: seq<OptionNode>)
    reads nodes
  {
    && Distinct(nodes)
    && (forall i {:trigger nodes[i].next} :: 0 <= i < |nodes| ==> nodes[i].next == if i + 1 < |nodes| then nodes[i + 1] else null)
  }

  ghost function Values(nodes: seq<OptionNode>): (r: seq<Option>)
    reads nodes
    ensures |r| == |nodes|
    ensures forall i :: 0 <= i < |nodes| ==> r[i] == Option(nodes[i].number, nodes[i].value)
  {
    seq(|nodes|, i requires 0 <= i < |nodes| reads nodes => Option(nodes[i].number, nodes[i].value))
  }

  /** The position of an insertion is the only one with smaller-or-equal numbers before it and a
      larger one behind. */
  lemma {:induction false} InsertBeforeAt(os: seq<Option>, o: Option, k: nat)
    requires k <= |os| && (forall i :: 0 <= i < k ==> os[i].number <= o.number)
    requires k < |os| ==> os[k].number > o.number
    ensures InsertBefore(os, o) == os[..k] + [o] + os[k..]
  {
    if k > 0 {
      InsertBeforeAt(os[1..], o, k - 1);
      assert os == [os[0]] + os[1..];
    }
  }

  /** Splicing o into a list in front of position k. */
  lemma LinkedSplice(was: seq<OptionNode>, o: OptionNode, k: nat)
    requires k < |was| && o !in was && o.next == was[k]
    requires Distinct(was)
    requires forall j {:trigger was[j].next} :: 0 <= j < |was| ==>
      was[j].next == if j + 1 == k then o else if j + 1 < |was| then was[j + 1] else null
    ensures Linked(was[..k] + [o] + was[k..])
  {
    var nodes := was[..k] + [o] + was[k..];
    forall i | 0 <= i < |nodes|
      ensures nodes[i].next == if i + 1 < |nodes| then nodes[i + 1] else null
    {
      if i < k {
        assert nodes[i] == was[i];
      } else if i > k {
        assert nodes[i] == was[i - 1];
      }
    }
  }

  class CoapMessage {
    var flags: nat
    var msgType: byte
    var codeClass: byte
    var codeDetail: byte
    var msgId: uint16
    var token: seq<byte>
    var payload: seq<byte>
    var options: OptionNode?
    var tail: OptionNode?
    ghost var nodes: seq<OptionNode>

    ghost predicate Valid()
      reads this, nodes
    {
      && Linked(nodes)
      && (nodes == [] <==> options == null)
      && (nodes != [] ==> options == nodes[0] && tail == nodes[|nodes| - 1])
    }

    ghost function Options(): seq<Option>
      reads this, nodes
    {
      Values(nodes)
    }

    /** The message as a value. */
    ghost function Value(): Message
      reads this, nodes
    {
      Message(msgType, codeClass, codeDetail, msgId, token, Options(), payload)
    }

    constructor ()
      ensures Valid() && flags == 0 && Value() == BLANK && nodes == []
    {
      flags, msgType, codeClass, codeDetail, msgId := 0, 0, 0, 0, 0;
      token, payload := [], [];
      options, tail, nodes := null, null, [];
    }

    /** mg_coap_add_option */
    method AddOption(number: uint32, value: seq<byte>) returns (o: OptionNode)
      requires Valid()
      modifies this`options, this`tail, this`nodes, (set n | n in nodes)`next
      ensures Valid() && fresh(o) && o in nodes && forall n :: n in nodes ==> n == o || n in old(nodes)
      ensures Options() == Add(old(Options()), Option(number, value))
    {
      hide Values, InsertBefore;
      o := new OptionNode(number, value);
      if options == null {
        options, tail, nodes := o, o, [o];
        assert Options() == [Option(number, value)];
      } else if tail.number <= o.number {
        AppendNode(o);
      } else {
        InsertSorted(o);
      }
    }

    method AppendNode(o: OptionNode)
      requires Valid() && nodes != [] && o !in nodes && o.next == null
      modifies this`tail, this`nodes, tail`next
      ensures Valid() && nodes == old(nodes) + [o]
      ensures Options() == old(Options()) + [Option(o.number, o.value)]
    {
      hide Values;
      ghost var was := Options();
      tail.next := o;
      tail := o;
      nodes := nodes + [o];
      assert Options() == was + [Option(o.number, o.value)];
    }

    method InsertSorted(o: OptionNode)
      requires Valid() && nodes != [] && o !in nodes && tail.number > o.number
      modifies this`options, this`nodes, o`next, nodes`next
      ensures Valid() && forall n :: n in nodes ==> n == o || n in old(nodes)
      ensures o in nodes && Options() == InsertBefore(old(Options()), Option(o.number, o.value))
    {
      hide Values, InsertBefore;
      ghost var was, x, ns := Options(), Option(o.number, o.value), nodes;
      ghost var k := InsertNode(o);
      InsertBeforeAt(was, x, k);
      assert nodes[k] == o;
      forall i | 0 <= i < |nodes| && i != k ensures nodes[i] in ns && Options()[i] == was[if i < k then i else i - 1] {
        assert nodes[i] == ns[if i < k then i else i - 1];
      }
      assert Options()[k] == x;
      assert Options() == was[..k] + [x] + was[k..];
    }

    /** Links o in front of the first node with a larger number. */
    method InsertNode(o: OptionNode) returns (ghost k: nat)
      requires Valid() && nodes != [] && o !in nodes && tail.number > o.number
      modifies this`options, this`nodes, o`next, nodes`next
      ensures k < |old(nodes)| && nodes == old(nodes)[..k] + [o] + old(nodes)[k..]
      ensures Valid() && tail == old(tail)
      ensures (forall i :: 0 <= i < k ==> old(nodes)[i].number <= o.number) && old(nodes)[k].number > o.number
    {
      hide Linked, Distinct;
      var prev, current;
      prev, current, k := FindPlace(o.number);
      ghost var was := nodes;
      LinkIn(prev, current, o, k);
      LinkedSplice(was, o, k);
      nodes := was[..k] + [o] + was[k..];
    }

    method LinkIn(prev: OptionNode?, current: OptionNode?, o: OptionNode, ghost k: nat)
      requires Valid() && o !in nodes && k < |nodes| && current == nodes[k]
      requires if k == 0 then prev == null else prev == nodes[k - 1]
      modifies this`options, o`next, nodes`next
      ensures Distinct(nodes) && o.next == nodes[k] && options == if k == 0 then o else old(options)
      ensures forall j {:trigger nodes[j].next} :: 0 <= j < |nodes| ==>
        nodes[j].next == if j + 1 == k then o else if j + 1 < |nodes| then nodes[j + 1] else null
    {
      assert forall j :: 0 <= j < |nodes| ==> nodes[j] in nodes && nodes[j] != o;
      if prev != null {
        prev.next := o;
        o.next := current;
      } else {
        o.next := options;
        options := o;
      }
    }

    method FindPlace(number: uint32) returns (prev: OptionNode?, current: OptionNode?, ghost k: nat)
      requires Valid() && nodes != [] && tail.number > number
      ensures k < |nodes| && current == nodes[k] && nodes[k].number > number
      ensures if k == 0 then prev == null else prev == nodes[k - 1]
      ensures forall i :: 0 <= i < k ==> nodes[i].number <= number
    {
      current, prev, k := options, null, 0;
      while current != null && current.number <= number
        invariant k < |nodes| && current == nodes[k]
        invariant if k == 0 then prev == null else prev == nodes[k - 1]
        invariant forall i :: 0 <= i < k ==> nodes[i].number <= number
        decreases |nodes| - k
      {
        prev, current := current, current.next;
        k := k + 1;
      }
    }

    /** mg_coap_free_options: the tail pointer is left as it is. */
    method FreeOptions()
      requires Valid()
      modifies this`options, this`nodes
      ensures Valid() && options == null && nodes == [] && Options() == []
    {
      ghost var k := 0;
      while options != null
        invariant Linked(nodes) && k <= |nodes| && options == if k < |nodes| then nodes[k] else null
        modifies this`options
        decreases |nodes| - k
      {
        assert nodes[k].next == if k + 1 < |nodes| then nodes[k + 1] else null;
        options := options.next;
        k := k + 1;
      }
      nodes := [];
    }

    // ----- composing

    /** coap_calculate_packet_size: whether the message can be composed, and its exact size. */
    method PacketSize() returns (res: nat, len: nat)
      requires Valid()
      ensures res == Check(Value())
      ensures res == 0 ==> len == |Encode(Value())|
    {
      hide Values, Encode, Encodable, CheckOptions, OptionsSize;
      len := 4;
      if msgType > 3 { return ERROR + TYPE_FIELD, len; }
      if |token| > 8 { return ERROR + TOKEN_FIELD, len; }
      if codeClass > 7 { return ERROR + CODE_CLASS_FIELD, len; }
      if codeDetail > 31 { return ERROR + CODE_DETAIL_FIELD, len; }
      len := len + |token|;
      if |payload| != 0 {
        len := len + |payload| + 1;
      }
      var size;
      res, size := OptionListSize();
      len := len + size;
      if res == 0 {
        PacketSizeIs(Value(), size);
      }
    }

    method OptionListSize() returns (res: nat, len: nat)
      requires Valid()
      ensures res == CheckOptions(0, Options())
      ensures res == 0 ==> Encodable(0, Options()) && len == OptionsSize(0, Options())
    {
      hide Values, Encodable, CheckOptions, OptionsSize;
      ghost var os, i := Options(), 0;
      var opt, prev: uint32 := options, 0;
      len := 0;
      assert os[0..] == os;
      while opt != null
        invariant i <= |nodes| && opt == if i < |nodes| then nodes[i] else null
        invariant i < |nodes| ==> prev <= os[i].number
        invariant CheckOptions(0, os) == CheckOptions(prev, os[i..])
        invariant Encodable(prev, os[i..]) ==>
          Encodable(0, os) && OptionsSize(0, os) == len + OptionsSize(prev, os[i..])
        decreases |nodes| - i
      {
        OptionsSizeStep(prev, os, i);
        var delta := opt.number - prev;
        len := len + 1 + ExtensionSize(delta) + ExtensionSize(|opt.value|);
        if (opt.next != null && opt.number > opt.next.number) || |opt.value| > EXT_MAX || delta > EXT_MAX {
          return ERROR + OPTION_FIELD, len;
        }
        len := len + |opt.value|;
        prev, opt := opt.number, opt.next;
        i := i + 1;
      }
      OptionsSizeEnd(prev);
      assert os[i..] == [];
      res := 0;
    }

    /** mg_coap_compose: the octets of the message behind what io holds already. */
    method Compose(io: Mbuf) returns (res: nat)
      requires Valid() && io.Valid()
      modifies io, io.buf
      ensures io.Valid() && (io.buf == old(io.buf) || fresh(io.buf))
      ensures res == Check(Value())
      ensures io.Contents() == old(io.Contents()) + if res == 0 then Encode(Value()) else []
    {
      hide Values, Check, EncodeHeader, EncodeBody, EncodeOptions, EncodePayload;
      ghost var m, was := Value(), io.Contents();
      var size;
      res, size := PacketSize();
      if res != 0 {
        assert was + [] == was;
        return;
      }
      var ptr := io.len;
      io.InsertGap(io.len, size);
      assert io.buf[..ptr] == was;
      CheckedHeader(m);
      ptr := PutMessage(io.buf, ptr);
    }

    method PutMessage(buf: array<byte>, start: nat) returns (ptr: nat)
      requires Valid() && Check(Value()) == 0 && start + |Encode(Value())| <= buf.Length
      modifies buf
      ensures ptr == start + |Encode(Value())| && buf[..ptr] == old(buf[..start]) + Encode(Value())
    {
      hide Values, Check, Encode, EncodeHeader, EncodeOptions, EncodePayload;
      ghost var m, was := Value(), buf[..start];
      CheckedHeader(m);
      ghost var h, o := EncodeHeader(m), EncodeOptions(0, m.options);
      EncodeParts(m);
      Regroup(was, h, o, EncodePayload(m.payload));
      ptr := PutHeader(buf, start);
      ptr := PutOptions(buf, ptr);
      ptr := PutPayload(buf, ptr);
    }

    method PutPayload(buf: array<byte>, start: nat) returns (ptr: nat)
      requires start + |EncodePayload(payload)| <= buf.Length
      modifies buf
      ensures ptr == start + |EncodePayload(payload)| && buf[..ptr] == old(buf[..start]) + EncodePayload(payload)
    {
      ghost var was := buf[..start];
      ptr := start;
      if |payload| != 0 {
        ptr := Put(buf, ptr, [0xFF]);
        ptr := Put(buf, ptr, payload);
        assert was + [0xFF] + payload == was + EncodePayload(payload);
      } else {
        assert was + [] == was;
      }
    }

    method PutHeader(buf: array<byte>, start: nat) returns (ptr: nat)
      requires msgType <= 3 && |token| <= 8 && codeClass <= 7 && codeDetail <= 31
      requires start + 4 + |token| <= buf.Length
      modifies buf
      ensures ptr == start + 4 + |token| && buf[..ptr] == old(buf[..start]) + EncodeHeader(Value())
    {
      hide Values, Be16;
      ghost var was := buf[..start];
      ptr := Put(buf, start, [0x40 + msgType * 16 + |token|]);
      ptr := Put(buf, ptr, [codeClass * 32 + codeDetail]);
      ptr := Put(buf, ptr, Be16(msgId));
      ptr := Put(buf, ptr, token);
      assert buf[..ptr] == was + EncodeHeader(Value());
    }

    method PutOptions(buf: array<byte>, start: nat) returns (ptr: nat)
      requires Valid() && Ascending(0, Options())
      requires start + |EncodeOptions(0, Options())| <= buf.Length
      modifies buf
      ensures ptr == start + |EncodeOptions(0, Options())|
      ensures buf[..ptr] == old(buf[..start]) + EncodeOptions(0, Options())
    {
      hide Values, EncodeOptions, EncodeOption, Ascending;
      ghost var os, i, was, all := Options(), 0, buf[..start], EncodeOptions(0, Options());
      var opt, prev: uint32 := options, 0;
      ptr := start;
      assert os[0..] == os;
      while opt != null
        invariant i <= |nodes| && opt == if i < |nodes| then nodes[i] else null
        invariant Ascending(prev, os[i..]) && ptr <= buf.Length
        invariant buf[..ptr] + EncodeOptions(prev, os[i..]) == was + all
        modifies buf
        decreases |nodes| - i
      {
        OptionStep(prev, os, i);
        ghost var front, rest := buf[..ptr], EncodeOptions(os[i].number, os[i + 1..]);
        assert front + (EncodeOption(prev, os[i]) + rest) == front + EncodeOption(prev, os[i]) + rest;
        ptr := PutOption(buf, ptr, opt.number - prev, opt.value, prev, os[i]);
        prev, opt := opt.number, opt.next;
        i := i + 1;
      }
      OptionEnd(prev);
      assert os[i..] == [] && buf[..ptr] + [] == buf[..ptr];
    }

    static method PutOption(buf: array<byte>, start: nat, delta: nat, value: seq<byte>,
                            ghost prev: uint32, ghost o: Option)
      returns (ptr: nat)
      requires prev <= o.number && delta == o.number - prev && value == o.value
      requires start + |EncodeOption(prev, o)| <= buf.Length
      modifies buf
      ensures ptr == start + |EncodeOption(prev, o)| && buf[..ptr] == old(buf[..start]) + EncodeOption(prev, o)
    {
      hide Nibble, Extension;
      ghost var was := buf[..start];
      ptr := Put(buf, start, [Nibble(delta) * 16 + Nibble(|value|)]);
      ptr := Put(buf, ptr, Extension(delta));
      ptr := Put(buf, ptr, Extension(|value|));
      ptr := Put(buf, ptr, value);
      assert buf[..ptr] == was + EncodeOption(prev, o);
    }

    // ----- parsing

    /** mg_coap_parse */
    method Parse(io: Mbuf) returns (res: nat)
      requires io.Valid()
      modifies this
      ensures Valid() && forall n :: n in nodes ==> fresh(n)
      ensures res == flags && Parsed(flags, Value()) == CoapCodec.Parse(io.Contents())
    {
      hide CoapCodec.Parse, ParseToken, ParseBody, Values;
      Reset();
      var ok, tokenLen := ParseHeader(io);
      if ok {
        var ptr;
        ok, ptr := GetToken(io, tokenLen);
        if ok {
          ParseRest(io, ptr);
        }
      }
      res := flags;
    }

    /** coap_parse_header */
    method ParseHeader(io: Mbuf) returns (ok: bool, tokenLen: nat)
      requires io.Valid() && Valid() && nodes == [] && flags == 0 && Value() == BLANK
      modifies this`flags, this`msgType, this`codeClass, this`codeDetail, this`msgId
      ensures ok ==> io.len >= 4
      ensures CoapCodec.Parse(io.Contents()) ==
        if ok then ParseToken(io.Contents(), tokenLen, flags, Value()) else Parsed(flags, Value())
    {
      hide ParseToken, Values, Get16;
      ghost var s, os := io.Contents(), Options();
      ok, tokenLen := false, 0;
      if io.len < 4 {
        flags := flags + NOT_ENOUGH_DATA;
        return;
      }
      var buf := io.buf;
      assert s[0] == buf[0] && s[1] == buf[1] && s[2] == buf[2] && s[3] == buf[3];
      if buf[0] / 64 != 1 {
        flags := flags + IGNORE;
        return;
      }
      msgType := buf[0] / 16 % 4;
      flags := flags + TYPE_FIELD;
      tokenLen := buf[0] % 16;
      if tokenLen > 8 {
        flags := flags + FORMAT_ERROR;
        return;
      }
      codeClass, codeDetail := buf[1] / 32, buf[1] % 32;
      flags := flags + CODE_CLASS_FIELD + CODE_DETAIL_FIELD;
      msgId := Get16(buf[2], buf[3]);
      flags := flags + MSG_ID_FIELD;
      ok := true;
    }

    /** coap_get_token */
    method GetToken(io: Mbuf, tokenLen: nat) returns (ok: bool, ptr: nat)
      requires io.Valid() && io.len >= 4 && Valid() && token == []
      modifies this`flags, this`token
      ensures ok ==> ptr <= io.len
      ensures ParseToken(io.Contents(), tokenLen, old(flags), old(Value())) ==
        if ok then ParseBody(io.buf[ptr..io.len], flags, Value()) else Parsed(flags, Value())
    {
      hide ParseBody, Values;
      ok, ptr := true, 4;
      if tokenLen != 0 {
        if ptr + tokenLen > io.len {
          flags := flags + NOT_ENOUGH_DATA;
          return false, ptr;
        }
        token := io.buf[ptr..ptr + tokenLen];
        SliceOfSlice(io.buf[..], 0, io.len, ptr, ptr + tokenLen);
        ptr := ptr + tokenLen;
        flags := flags + TOKEN_FIELD;
      }
      assert io.Contents()[ptr..] == io.buf[ptr..io.len];
    }

    /** memset to zero: whatever list there was is forgotten. */
    method Reset()
      modifies this
      ensures Valid() && nodes == [] && flags == 0 && Value() == BLANK
    {
      flags, msgType, codeClass, codeDetail, msgId := 0, 0, 0, 0, 0;
      token, payload := [], [];
      options, tail, nodes := null, null, [];
    }

    /** Options and payload of a message whose header and token end at ptr. */
    method ParseRest(io: Mbuf, ptr: nat)
      requires io.Valid() && ptr <= io.len && Valid() && nodes == []
      modifies this`flags, this`options, this`tail, this`nodes, this`payload
      ensures Valid() && forall n :: n in nodes ==> fresh(n)
      ensures Parsed(flags, Value()) == ParseBody(io.buf[ptr..io.len], old(flags), old(Value()))
    {
      hide ScanOptions, Values;
      ghost var s, scan := io.buf[ptr..io.len], ScanOptions(io.buf[ptr..io.len], 0, []);
      assert Options() == [];
      if ptr == io.len {
        return;
      }
      var error, next := GetOptions(io, ptr);
      if error != 0 {
        flags := flags + error;
        FreeOptions();
        return;
      }
      flags := flags + OPTION_FIELD;
      if next == io.len {
        return;
      }
      next := next + 1;
      if io.len - next != 0 {
        payload := io.buf[next..io.len];
        assert scan.rest[1..] == io.buf[next..io.len];
        flags := flags + PAYLOAD_FIELD;
      }
    }

    /** The loop of coap_get_options. */
    method GetOptions(io: Mbuf, start: nat) returns (error: nat, ptr: nat)
      requires io.Valid() && start <= io.len && Valid() && nodes == []
      modifies this`options, this`tail, this`nodes
      ensures Valid() && forall n :: n in nodes ==> fresh(n)
      ensures var scan := ScanOptions(io.buf[start..io.len], 0, []);
              error == scan.error &&
              (error == 0 ==> ptr <= io.len && Options() == scan.options && io.buf[ptr..io.len] == scan.rest)
    {
      hide ScanOptions, Values, GetHead, Add;
      ghost var scan := ScanOptions(io.buf[start..io.len], 0, []);
      var prev: uint16 := 0;
      error, ptr := 0, start;
      assert Options() == [];
      while ptr < io.len && io.buf[ptr] != 0xFF
        invariant Valid() && ptr <= io.len && forall n :: n in nodes ==> fresh(n)
        invariant ScanOptions(io.buf[ptr..io.len], prev, Options()) == scan
        decreases io.len - ptr
      {
        ghost var s := io.buf[ptr..io.len];
        ScanHead(s, prev, Options());
        var delta, length, from;
        error, delta, length, from := ReadHead(io, ptr);
        if error != 0 { return; }
        var number := (delta + prev) % 0x1_0000;
        var end := if from + length > io.len then io.len else from + length;
        assert from + length <= io.len ==> s[from - ptr..from - ptr + length] == io.buf[from..end];
        var o := AddOption(number, io.buf[from..end]);
        prev := number;
        if from + length > io.len {
          error := NOT_ENOUGH_DATA;
          return;
        }
        assert s[from - ptr + length..] == io.buf[from + length..io.len];
        ptr := from + length;
      }
      ScanDone(io.buf[ptr..io.len], prev, Options());
    }

    /** The header octet of an option and its extensions. */
    static method ReadHead(io: Mbuf, ptr: nat) returns (error: nat, delta: uint16, length: uint16, from: nat)
      requires io.Valid() && ptr < io.len
      ensures var h := GetHead(io.buf[ptr..io.len]);
              if error != 0 then h == BadHead(error)
              else ptr < from <= io.len && h == OptionHead(delta, length, from - ptr)
    {
      hide GetExt;
      ghost var s := io.buf[ptr..io.len];
      error, from := 0, ptr;
      delta, length := io.buf[ptr] / 16, io.buf[ptr] % 16;
      if delta == 15 || length == 15 {
        error := FORMAT_ERROR;
        return;
      }
      from := from + 1;
      assert s[1..] == io.buf[from..io.len];
      var ext := GetExt(io.buf[from..io.len], delta);
      if ext.Short? {
        error := NOT_ENOUGH_DATA;
        return;
      }
      delta, from := ext.value, from + ext.size;
      assert s[1 + ext.size..] == io.buf[from..io.len];
      ext := GetExt(io.buf[from..io.len], length);
      if ext.Short? {
        error := NOT_ENOUGH_DATA;
        return;
      }
      length, from := ext.value, from + ext.size;
    }
  }

  lemma ScanHead(s: seq<byte>, prev: uint16, acc: seq<Option>)
    requires s != [] && s[0] != 0xFF
    ensures ScanOptions(s, prev, acc) ==
      match GetHead(s)
      case BadHead(e) => OptionScan([], [], e)
      case OptionHead(delta, length, start) =>
        var number := (delta + prev) % 0x1_0000;
        if start + length > |s| then OptionScan([], [], NOT_ENOUGH_DATA)
        else ScanOptions(s[start + length..], number, Add(acc, Option(number, s[start..start + length])))
  {
    hide GetHead;
  }

  lemma ScanDone(s: seq<byte>, prev: uint16, acc: seq<Option>)
    requires s == [] || s[0] == 0xFF
    ensures ScanOptions(s, prev, acc) == OptionScan(acc, s, 0)
  {
  }

  lemma CheckedHeader(m: Message)
    requires Check(m) == 0
    ensures m.msgType <= 3 && |m.token| <= 8 && m.codeClass <= 7 && m.codeDetail <= 31
    ensures Ascending(0, m.options)
    ensures |Encode(m)| == 4 + |m.token| + |EncodeOptions(0, m.options)| + |EncodePayload(m.payload)|
    ensures |EncodePayload(m.payload)| == if m.payload == [] then 0 else 1 + |m.payload|
  {
    hide EncodeOptions, Ascending, CheckOptions;
    CheckedOptions(m);
  }

  lemma EncodeParts(m: Message)
    requires Check(m) == 0 && Ascending(0, m.options)
    ensures Encode(m) == EncodeHeader(m) + (EncodeOptions(0, m.options) + EncodePayload(m.payload))
  {
    hide EncodeHeader, EncodeOptions, EncodePayload, Ascending;
  }

  lemma PacketSizeIs(m: Message, size: nat)
    requires Check(m) == 0 && Encodable(0, m.options) && size == OptionsSize(0, m.options)
    ensures |Encode(m)| == 4 + |m.token| + (if m.payload == [] then 0 else 1 + |m.payload|) + size
  {
    hide OptionsSize, Encodable, Ascending;
    CheckedHeader(m);
    OptionsSizeExact(0, m.options);
  }

  lemma OptionsSizeStep(prev: uint32, os: seq<Option>, i: nat)
    requires i < |os| && prev <= os[i].number
    ensures var o, rest := os[i], os[i + 1..];
            var bad := (i + 1 < |os| && o.number > os[i + 1].number) || |o.value| > EXT_MAX
                       || o.number - prev > EXT_MAX;
            && CheckOptions(prev, os[i..]) == (if bad then ERROR + OPTION_FIELD else CheckOptions(o.number, rest))
            && (Encodable(prev, os[i..]) ==> Encodable(o.number, rest))
            && (!bad && Encodable(o.number, rest) ==>
                  Encodable(prev, os[i..]) && OptionsSize(prev, os[i..]) ==
                    1 + ExtensionSize(o.number - prev) + ExtensionSize(|o.value|) + |o.value| + OptionsSize(o.number, rest))
  {
    assert os[i..][1..] == os[i + 1..];
  }

  lemma OptionsSizeEnd(prev: uint32)
    ensures CheckOptions(prev, []) == 0 && Encodable(prev, []) && OptionsSize(prev, []) == 0
  {
  }

  lemma OptionStep(prev: uint32, os: seq<Option>, i: nat)
    requires i < |os| && Ascending(prev, os[i..])
    ensures prev <= os[i].number && Ascending(os[i].number, os[i + 1..])
    ensures EncodeOptions(prev, os[i..]) == EncodeOption(prev, os[i]) + EncodeOptions(os[i].number, os[i + 1..])
  {
    hide EncodeOption;
    assert os[i..][1..] == os[i + 1..];
  }

  lemma OptionEnd(prev: uint32)
    ensures Ascending(prev, []) && EncodeOptions(prev, []) == []
  {
  }
}
