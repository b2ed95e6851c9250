/** The socket RPC framing (src/lwpb/rpc/socket_helper.c): requests, and finding the service and method they call. */
module Rpc {
  import opened Wire
  import opened Schema
  import opened Scalars
  import opened Format
  import opened Buffers
  import opened Fields
  import opened Parser
  import opened RoundTrip
  import opened Truncation
  import opened Encoder
  import Decoder

  const MAGIC: u32 := 0xdead_beaf
  const REQUEST: int := 0

  /** The pre-header: three big-endian words. */
  const PRE_HEADER: nat := 12
  const HEADER_SIZE: nat := 128

  // Result codes of the request parser. The code of a failed header decode is passed on unchanged.
  const PARSE_OK: nat := 0
  const PARSE_END_OF_BUF: nat := 1
  const PARSE_INVALID_MAGIC: nat := 2
  const DECODE_END_OF_BUF: nat := 4

  // The message Header, with index 0.
  const TYPE: Field := Field(0, 1, Enum, Required, false, 0, "type")
  const SERVICE: Field := Field(1, 2, String, Optional, false, 0, "service")
  const METHOD: Field := Field(2, 3, String, Optional, false, 0, "method")
  const DESCS: Descs := [MsgDesc([TYPE, SERVICE, METHOD])]

  datatype Service = Service(name: seq<byte>, methods: seq<seq<byte>>)

  /** What the header's fields say: service and method as indices into the service list. */
  datatype Info = Info(msgType: int, service: Option<nat>, meth: Option<nat>)

  // ---- big-endian words ----

  function Be32(v: u32): (s: seq<byte>)
    ensures |s| == 4
  {
    var b := Le(v, 4);
    [b[3], b[2], b[1], b[0]]
  }

  function UnBe32(s: seq<byte>): (v: u32)
    requires |s| == 4
  {
    var b := [s[3], s[2], s[1], s[0]];
    UnLeRoundTrip(b);
    Pow256Widths();
    UnLe(b)
  }

  lemma Be32RoundTrip(v: u32)
    ensures UnBe32(Be32(v)) == v
  {
    Pow256Widths();
    LeRoundTrip(v, 4);
    hide Le, UnLe;
    var b, s := Le(v, 4), Be32(v);
    assert [s[3], s[2], s[1], s[0]] == b;
  }

  // ---- requests ----

  function HeaderItems(service: seq<byte>, meth: seq<byte>): seq<Item> {
    [Single(TYPE, Num(REQUEST)), Single(SERVICE, Str(service)), Single(METHOD, Str(meth))]
  }

  lemma HeaderOk(service: seq<byte>, meth: seq<byte>)
    requires |service| < TWO64 && |meth| < TWO64
    ensures Shaped(HeaderItems(service, meth))
    ensures Declared(DESCS, 0, HeaderItems(service, meth)) && Height(HeaderItems(service, meth)) == 0
  {
    PlainHeight(HeaderItems(service, meth));
  }

  ghost function Header(service: seq<byte>, meth: seq<byte>): seq<byte>
    requires |service| < TWO64 && |meth| < TWO64
  {
    HeaderOk(service, meth);
    Enc(HeaderItems(service, meth))
  }

  /** The bytes of a request. */
  ghost function Request(service: seq<byte>, meth: seq<byte>, body: seq<byte>): seq<byte>
    requires |service| < TWO64 && |meth| < TWO64 && |Header(service, meth)| <= HEADER_SIZE && |body| < TWO32
  {
    Framed(Header(service, meth), body)
  }

  function Framed(header: seq<byte>, body: seq<byte>): seq<byte>
    requires |header| < TWO32 && |body| < TWO32
  {
    Be32(MAGIC) + Be32(|header|) + Be32(|body|) + header + body
  }

  /** The header's records, one after the other. */
  ghost function HeaderRecords(service: seq<byte>, meth: seq<byte>): seq<seq<byte>>
    requires |service| < TWO64 && |meth| < TWO64
  {
    [Record(TYPE, ToWire(Enum, Num(REQUEST))), Record(SERVICE, WString(service)), Record(METHOD, WString(meth))]
  }

  /** What is in the header's buffer after another record has been added to `h`: all of it, or what is left behind of
      a record that does not fit. */
  function Added(h: seq<byte>, f: Field, w: WireValue): (r: seq<byte>)
    requires |h| <= HEADER_SIZE
    ensures |r| <= HEADER_SIZE
  {
    var left, all := HEADER_SIZE - |h|, Record(f, w);
    if |all| <= left then h + all
    else
      KeptFits(f, w, left);
      h + all[..FieldKept(f, false, w, left)]
  }

  lemma KeptFits(f: Field, w: WireValue, left: nat)
    requires |Record(f, w)| > left
    ensures FieldKept(f, false, w, left) <= left
  {
    hide Varint, Key;
  }

  /** The header that is sent: three records added, whatever comes of each. */
  function HeaderSent(service: seq<byte>, meth: seq<byte>): (h: seq<byte>)
    requires |service| < TWO64 && |meth| < TWO64
    ensures |h| <= HEADER_SIZE
  {
    Added(Added(Added([], TYPE, ToWire(Enum, Num(REQUEST))), SERVICE, WString(service)), METHOD, WString(meth))
  }

  lemma AddedWhole(h: seq<byte>, f: Field, w: WireValue)
    requires |h| + |Record(f, w)| <= HEADER_SIZE
    ensures Added(h, f, w) == h + Record(f, w)
  {
  }

  lemma SentIs(service: seq<byte>, meth: seq<byte>)
    requires |service| < TWO64 && |meth| < TWO64
    ensures HeaderSent(service, meth)
            == Added(Added(Added([], TYPE, ToWire(Enum, Num(REQUEST))), SERVICE, WString(service)), METHOD, WString(meth))
    ensures Header(service, meth)
            == Record(TYPE, ToWire(Enum, Num(REQUEST))) + (Record(SERVICE, WString(service)) + Record(METHOD, WString(meth)))
  {
    HeaderJoined(service, meth);
    var rs := HeaderRecords(service, meth);
    hide Record, ToWire, Joined, Header, Added;
    assert rs == [rs[0], rs[1], rs[2]];
    JoinedThree(rs[0], rs[1], rs[2]);
  }

  /** A header that fits is sent as it is. */
  lemma HeaderSentWhole(service: seq<byte>, meth: seq<byte>)
    requires |service| < TWO64 && |meth| < TWO64 && |Header(service, meth)| <= HEADER_SIZE
    ensures HeaderSent(service, meth) == Header(service, meth)
  {
    SentIs(service, meth);
    var w := ToWire(Enum, Num(REQUEST));
    hide Record, ToWire, Header, HeaderSent, Added;
    var a, b, c := Record(TYPE, w), Record(SERVICE, WString(service)), Record(METHOD, WString(meth));
    AddedWhole([], TYPE, w);
    InFrontOfNothing(a);
    AddedWhole(a, SERVICE, WString(service));
    AddedWhole(a + b, METHOD, WString(meth));
    Regrouped(a, b, c);
  }

  lemma InFrontOfNothing(a: seq<byte>)
    ensures [] + a == a
  {
  }

  lemma Regrouped(a: seq<byte>, b: seq<byte>, c: seq<byte>)
    ensures a + b + c == a + (b + c)
  {
  }

  lemma JoinedThree(a: seq<byte>, b: seq<byte>, c: seq<byte>)
    ensures Joined([a, b, c]) == a + (b + c)
  {
    assert [a, b, c][..2] == [a, b] && [a, b][..1] == [a] && [a][..0] == [];
    assert Joined([a]) == [] + a && Joined([a, b]) == Joined([a]) + b && Joined([a, b, c]) == Joined([a, b]) + c;
  }

  lemma EncThree(a: Item, b: Item, c: Item)
    requires ShapedItem(a) && ShapedItem(b) && ShapedItem(c)
    ensures Shaped([a, b, c]) && Enc([a, b, c]) == EncItem(a) + (EncItem(b) + EncItem(c))
  {
    hide ShapedItem, EncItem;
    assert [a, b, c][1..] == [b, c] && [b, c][1..] == [c] && [c][1..] == [];
    assert Enc([c]) == EncItem(c) + [];
    assert Enc([b, c]) == EncItem(b) + Enc([c]);
  }

  lemma HeaderJoined(service: seq<byte>, meth: seq<byte>)
    requires |service| < TWO64 && |meth| < TWO64
    ensures Header(service, meth) == Joined(HeaderRecords(service, meth))
  {
    var a, b, c := Single(TYPE, Num(REQUEST)), Single(SERVICE, Str(service)), Single(METHOD, Str(meth));
    assert ShapedItem(a) && ShapedItem(b) && ShapedItem(c);
    hide Record, Joined, Enc;
    EncThree(a, b, c);
    JoinedThree(EncItem(a), EncItem(b), EncItem(c));
  }

  /** The encoder has one open message, the header, with the bytes `h` so far. */
  ghost predicate HeaderOpen(e: Encoder, h: seq<byte>)
    reads e, e.stack, e.data
  {
    && e.Valid() && e.depth == 1 && !e.packed && e.descs == DESCS
    && e.Top().msg == Some(0) && e.Top().buf.base == 0 && e.Top().buf.end == HEADER_SIZE
    && e.data[..e.Top().buf.pos] == h
  }

  method StartHeader(e: Encoder, header: array<byte>)
    requires e.stack.Length == MAX_DEPTH && e.descs == DESCS && header.Length == HEADER_SIZE
    modifies e, e.stack
    ensures e.data == header && HeaderOpen(e, [])
  {
    e.Start(0, header, HEADER_SIZE);
    assert e.stack[..1] == [e.stack[0]];
    assert e.Abstract().levels[0] == LevelOf(e.stack[0], header[..]);
    assert header[..][0..e.Top().buf.pos] == [];
    assert header[..e.Top().buf.pos] == [];
  }

  predicate IsHeaderField(f: Field) {
    f in [TYPE, SERVICE, METHOD]
  }

  /** Adds a header field, whatever comes of it. */
  method AddRecord(e: Encoder, f: Field, v: Value, ghost h: seq<byte>, ghost w: WireValue)
    requires HeaderOpen(e, h) && |h| <= HEADER_SIZE
    requires IsHeaderField(f) && Fits(f.typ, v) && w == ToWire(f.typ, v)
    modifies e.stack, e.data
    ensures HeaderOpen(e, Added(h, f, w))
  {
    hide ToWire, Fits, Record, Splice, FieldKept;
    ghost var mem, buf := e.data[..], e.Top().buf;
    var _ := e.AddField(f, Direct(v));
    ghost var r := Record(f, w);
    ghost var n := e.Top().buf.pos - buf.pos;
    SpliceAppends(mem, buf.pos, r[..n], 0);
    assert mem[0..buf.pos] == h && e.data[..][0..e.Top().buf.pos] == e.data[..e.Top().buf.pos];
    assert r[..|r|] == r;
  }

  /** The bytes written for the header. */
  method FinishHeader(e: Encoder, ghost h: seq<byte>) returns (len: nat)
    requires HeaderOpen(e, h)
    ensures len <= e.data.Length && e.data[..len] == h
  {
    len := e.Finish();
    assert e.stack[..1] == [e.stack[0]];
    assert e.Levels()[0] == LevelOf(e.stack[0], e.data[..]);
    assert e.data[..][0..e.Top().buf.pos] == e.data[..e.Top().buf.pos];
  }

  method EncodeHeader(e: Encoder, service: seq<byte>, meth: seq<byte>) returns (h: seq<byte>)
    requires e.stack.Length == MAX_DEPTH && e.descs == DESCS && |service| < TWO64 && |meth| < TWO64
    modifies e, e.stack
    ensures h == HeaderSent(service, meth)
  {
    FieldsAre(service, meth);
    hide HeaderOpen, Added, ToWire, Fits, IsHeaderField;
    var header := new byte[HEADER_SIZE](_ => 0);
    ghost var t := ToWire(Enum, Num(REQUEST));
    StartHeader(e, header);
    AddRecord(e, TYPE, Num(REQUEST), [], t);
    AddRecord(e, SERVICE, Str(service), Added([], TYPE, t), WString(service));
    AddRecord(e, METHOD, Str(meth), Added(Added([], TYPE, t), SERVICE, WString(service)), WString(meth));
    var len := FinishHeader(e, HeaderSent(service, meth));
    h := e.data[..len];
  }

  lemma FieldsAre(service: seq<byte>, meth: seq<byte>)
    requires |service| < TWO64 && |meth| < TWO64
    ensures TYPE.typ == Enum && Fits(TYPE.typ, Num(REQUEST))
    ensures Fits(SERVICE.typ, Str(service)) && ToWire(SERVICE.typ, Str(service)) == WString(service)
    ensures Fits(METHOD.typ, Str(meth)) && ToWire(METHOD.typ, Str(meth)) == WString(meth)
    ensures IsHeaderField(TYPE) && IsHeaderField(SERVICE) && IsHeaderField(METHOD)
  {
  }

  /** Encodes the header and sends all parts. Errors are ignored, so that a header too long for its buffer is sent
      in part. */
  method SendRequest(e: Encoder, service: seq<byte>, meth: seq<byte>, body: seq<byte>) returns (sent: seq<byte>)
    requires e.stack.Length == MAX_DEPTH && e.descs == DESCS
    requires |service| < TWO64 && |meth| < TWO64 && |body| < TWO32
    modifies e, e.stack
    ensures sent == Framed(HeaderSent(service, meth), body)
    ensures |Header(service, meth)| <= HEADER_SIZE ==> sent == Request(service, meth, body)
  {
    var h := EncodeHeader(e, service, meth);
    hide Header, HeaderSent, Framed, Be32;
    if |Header(service, meth)| <= HEADER_SIZE { HeaderSentWhole(service, meth); }
    sent := Be32(MAGIC) + Be32(|h|) + Be32(|body|) + h + body;
    FramedIs(h, body);
  }

  lemma FramedIs(h: seq<byte>, body: seq<byte>)
    requires |h| < TWO32 && |body| < TWO32
    ensures Be32(MAGIC) + Be32(|h|) + Be32(|body|) + h + body == Framed(h, body)
  {
  }

  // ---- finding service and method ----

  /** The first of the names equal to `name`. */
  function IndexOf(names: seq<seq<byte>>, name: seq<byte>): (r: Option<nat>)
    ensures r.Some? ==> r.value < |names| && names[r.value] == name && name !in names[..r.value]
    ensures r.None? ==> name !in names
  {
    if names == [] then None
    else if names[0] == name then Some(0)
    else match IndexOf(names[1..], name)
      case Some(i) => Some(i + 1)
      case None => None
  }

  function Names(services: seq<Service>): seq<seq<byte>> {
    seq(|services|, i requires 0 <= i < |services| => services[i].name)
  }

  /** What a header field adds: a name not found leaves what was found before, and a method is looked up only in
      a service already found. */
  function OnField(list: Option<seq<Service>>, info: Info, f: Field, v: Value): Info {
    if f == TYPE && v.Num? then info.(msgType := v.n)
    else if list.None? || v.Num? then info
    else if f == SERVICE then
      var i := IndexOf(Names(list.value), v.data);
      if i.Some? then info.(service := i) else info
    else if f == METHOD && info.service.Some? && info.service.value < |list.value| then
      var j := IndexOf(list.value[info.service.value].methods, v.data);
      if j.Some? then info.(meth := j) else info
    else info
  }

  /** The fields of a header, in the order they are decoded. */
  function Gather(list: Option<seq<Service>>, info: Info, es: seq<Event>): (r: Info)
    decreases |es|
  {
    if es == [] then info
    else
      var next := if es[0].FieldEvent? && es[0].msg == 0 && es[0].v.Some? then OnField(list, info, es[0].f, es[0].v.value)
                  else info;
      Gather(list, next, es[1..])
  }

  // ---- requests received ----

  /** What the bytes received so far amount to: not yet a whole request, no request, or a request with the status
      of decoding its header, what that says, and where the message body is. */
  datatype Received =
    | Incomplete
    | BadMagic
    | Whole(status: Status, info: Info, headerLen: nat, msgLen: nat)

  function ParseRequest(list: Option<seq<Service>>, buf: seq<byte>): (r: Received)
    ensures r.Whole? ==> r.headerLen + r.msgLen <= |buf|
  {
    if |buf| < PRE_HEADER then Incomplete
    else if UnBe32(buf[0..4]) != MAGIC then BadMagic
    else
      var header, body := UnBe32(buf[4..8]), UnBe32(buf[8..12]);
      if |buf| < PRE_HEADER + header + body then Incomplete
      else
        var p := Parse(DESCS, 0, buf[PRE_HEADER..PRE_HEADER + header], true);
        Whole(p.status, Gather(list, Info(0, None, None), p.events), PRE_HEADER + header, body)
  }

  function Code(r: Received): nat
    requires r.Whole? ==> Defined(r.status)
  {
    match r
    case Incomplete => PARSE_END_OF_BUF
    case BadMagic => PARSE_INVALID_MAGIC
    case Whole(status, _, _, _) => if status.Done? then PARSE_OK else DECODE_END_OF_BUF
  }

  /** The parser's state: the fields of the header info. */
  class RequestParser {
    var msgType: int
    var service: Option<nat>
    var meth: Option<nat>
    var headerLen: nat
    var msgLen: nat
    const list: Option<seq<Service>>

    constructor (list: Option<seq<Service>>)
      ensures this.list == list
    {
      this.list := list;
      msgType, service, meth, headerLen, msgLen := 0, None, None, 0, 0;
    }

    function State(): Info
      reads this
    {
      Info(msgType, service, meth)
    }

    /** Looks up the names of service and method as they are decoded. */
    method FieldHandler(f: Field, v: Value)
      modifies this`msgType, this`service, this`meth
      ensures State() == OnField(list, old(State()), f, v)
    {
      if f == TYPE && v.Num? {
        msgType := v.n;
      }
      if f == SERVICE && list.Some? && v.Str? {
        var names := Names(list.value);
        var i := Search(names, v.data);
        if i < |names| {
          service := Some(i);
        }
      }
      if f == METHOD && list.Some? && v.Str? && service.Some? && service.value < |list.value| {
        var methods := list.value[service.value].methods;
        var j := Search(methods, v.data);
        if j < |methods| {
          meth := Some(j);
        }
      }
    }

    /** The first place of a name, or the number of names. */
    method Search(names: seq<seq<byte>>, name: seq<byte>) returns (i: nat)
      ensures i <= |names| && IndexOf(names, name) == if i < |names| then Some(i) else None
    {
      i := 0;
      while i < |names| && names[i] != name
        invariant i <= |names| && name !in names[..i]
      {
        i := i + 1;
      }
      if i < |names| {
        assert names[i] in names;
      }
    }

    /** Parses what has been received so far. */
    method Receive(d: Decoder.Decoder, buf: seq<byte>) returns (code: nat)
      requires d.stack.Length == MAX_DEPTH && d.descs == DESCS
      requires var r := ParseRequest(list, buf); r.Whole? ==> Defined(r.status)
      modifies this, d, d.stack
      ensures var r := ParseRequest(list, buf);
              && code == Code(r)
              && (r.Whole? ==> State() == r.info && headerLen == r.headerLen && msgLen == r.msgLen)
              && (!r.Whole? ==> State() == old(State()))
              && (r.BadMagic? || |buf| < PRE_HEADER ==> headerLen == old(headerLen) && msgLen == old(msgLen))
              && (r.Incomplete? && |buf| >= PRE_HEADER ==>
                    headerLen == UnBe32(buf[4..8]) + PRE_HEADER && msgLen == UnBe32(buf[8..12]))
    {
      hide Parse, OnField;
      if |buf| < PRE_HEADER {
        return PARSE_END_OF_BUF;
      }
      if UnBe32(buf[0..4]) != MAGIC {
        return PARSE_INVALID_MAGIC;
      }
      var header := UnBe32(buf[4..8]);
      headerLen, msgLen := header + PRE_HEADER, UnBe32(buf[8..12]);
      if |buf| < headerLen + msgLen {
        return PARSE_END_OF_BUF;
      }
      msgType, service, meth := 0, None, None;
      var err, _ := d.Decode(0, buf[PRE_HEADER..PRE_HEADER + header]);
      ghost var es := d.trace;
      assert es[0..] == es;
      for i := 0 to |d.trace|
        invariant d.trace == es && headerLen == header + PRE_HEADER && msgLen == UnBe32(buf[8..12])
        invariant Gather(list, State(), es[i..]) == Gather(list, Info(0, None, None), es)
      {
        assert es[i..][0] == es[i] && es[i..][1..] == es[i + 1..];
        var e := d.trace[i];
        if e.FieldEvent? && e.msg == 0 && e.v.Some? {
          FieldHandler(e.f, e.v.value);
        }
      }
      code := if err.Ok? then PARSE_OK else DECODE_END_OF_BUF;
    }
  }

  // ---- requests sent and received ----

  lemma HeaderNumbersOk()
    ensures NumbersOk(DESCS)
  {
  }

  /** The events of a request's header. */
  lemma HeaderEvents(service: seq<byte>, meth: seq<byte>)
    requires |service| < TWO64 && |meth| < TWO64
    ensures MessageEvents(0, HeaderItems(service, meth))
            == [MsgStart(0, 1, false), FieldEvent(0, TYPE, Some(Num(REQUEST))), FieldEvent(0, SERVICE, Some(Str(service))),
                FieldEvent(0, METHOD, Some(Str(meth))), MsgEnd(0, 1, false)]
  {
    var t, s, m := FieldEvent(0, TYPE, Some(Num(REQUEST))), FieldEvent(0, SERVICE, Some(Str(service))),
                   FieldEvent(0, METHOD, Some(Str(meth)));
    var items := HeaderItems(service, meth);
    assert items[1..] == [items[1], items[2]] && items[1..][1..] == [items[2]] && items[1..][1..][1..] == [];
    assert Events(0, 0, 1, []) == [];
    assert Events(0, 0, 1, [items[2]]) == [m] by { assert [items[2]][1..] == [] && [m] + [] == [m]; }
    assert Events(0, 0, 1, [items[1], items[2]]) == [s, m] by { assert [items[1], items[2]][1..] == [items[2]]; }
    assert Events(0, 0, 1, items) == [t, s, m];
  }

  /** What is found for a request: the first service of the name, and in it the first method of the name. */
  function Lookup(list: seq<Service>, service: seq<byte>, meth: seq<byte>): (r: Info) {
    var i := IndexOf(Names(list), service);
    Info(REQUEST, i, if i.Some? then IndexOf(list[i.value].methods, meth) else None)
  }

  lemma GatherHeader(list: seq<Service>, service: seq<byte>, meth: seq<byte>)
    ensures Gather(Some(list), Info(0, None, None),
                   [MsgStart(0, 1, false), FieldEvent(0, TYPE, Some(Num(REQUEST))),
                    FieldEvent(0, SERVICE, Some(Str(service))), FieldEvent(0, METHOD, Some(Str(meth))),
                    MsgEnd(0, 1, false)])
            == Lookup(list, service, meth)
  {
    var t, s, m, end := FieldEvent(0, TYPE, Some(Num(REQUEST))), FieldEvent(0, SERVICE, Some(Str(service))),
                        FieldEvent(0, METHOD, Some(Str(meth))), MsgEnd(0, 1, false);
    var es := [MsgStart(0, 1, false), t, s, m, end];
    assert es[1..] == [t, s, m, end] && es[1..][1..] == [s, m, end] && es[1..][1..][1..] == [m, end];
    assert es[1..][1..][1..][1..] == [end] && [end][1..] == [];
    var i0 := Info(REQUEST, None, None);
    var i1 := OnField(Some(list), i0, SERVICE, Str(service));
    var i2 := OnField(Some(list), i1, METHOD, Str(meth));
    hide OnField;
    assert Gather(Some(list), i2, []) == i2;
    assert Gather(Some(list), i2, [end]) == i2;
    assert Gather(Some(list), i1, [m, end]) == i2;
    assert Gather(Some(list), i0, [s, m, end]) == i2;
  }

  /** A request, whatever has been received behind it, is parsed as a whole: its header says it is a request and
      names the service and method, and its body is found. */
  lemma RequestRoundTrip(list: seq<Service>, service: seq<byte>, meth: seq<byte>, body: seq<byte>, more: seq<byte>)
    requires |service| < TWO64 && |meth| < TWO64 && |Header(service, meth)| <= HEADER_SIZE && |body| < TWO32
    ensures var buf := Request(service, meth, body) + more;
            var r := ParseRequest(Some(list), buf);
            && r == Whole(Done, Lookup(list, service, meth), PRE_HEADER + |Header(service, meth)|, |body|)
            && buf[r.headerLen..r.headerLen + r.msgLen] == body
  {
    hide Parse, Enc, Be32, UnBe32, Gather, MessageEvents, Shaped, Declared, Height, NumbersOk, Lookup;
    var header := Header(service, meth);
    var buf := Request(service, meth, body) + more;
    FramedParts(header, body, more);
    HeaderOk(service, meth);
    HeaderNumbersOk();
    MessageRoundTrip(DESCS, 0, HeaderItems(service, meth), true);
    HeaderEvents(service, meth);
    GatherHeader(list, service, meth);
  }

  lemma FramedParts(header: seq<byte>, body: seq<byte>, more: seq<byte>)
    requires |header| < TWO32 && |body| < TWO32
    ensures var buf, n := Framed(header, body) + more, PRE_HEADER + |header|;
            && |buf| == n + |body| + |more|
            && UnBe32(buf[0..4]) == MAGIC && UnBe32(buf[4..8]) == |header| && UnBe32(buf[8..12]) == |body|
            && buf[PRE_HEADER..n] == header && buf[n..n + |body|] == body
  {
    Be32RoundTrip(MAGIC);
    Be32RoundTrip(|header|);
    Be32RoundTrip(|body|);
    hide Be32, UnBe32;
    FiveParts(Be32(MAGIC), Be32(|header|), Be32(|body|), header, body, more);
  }

  lemma FiveParts(a: seq<byte>, b: seq<byte>, c: seq<byte>, header: seq<byte>, body: seq<byte>, more: seq<byte>)
    requires |a| == 4 && |b| == 4 && |c| == 4
    ensures var buf, n := a + b + c + header + body + more, 12 + |header|;
            && |buf| == n + |body| + |more|
            && buf[0..4] == a && buf[4..8] == b && buf[8..12] == c && buf[12..n] == header && buf[n..n + |body|] == body
  {
    var words, rest := a + b + c, header + body + more;
    assert a + b + c + header + body + more == words + rest;
    assert words[0..4] == a && words[4..8] == b && words[8..12] == c;
    assert rest[..|header|] == header && rest[|header|..|header| + |body|] == body;
  }

  /** The parser finds the very service and method that were called exactly when no earlier service has the
      service's name, and no earlier method of the service the method's. */
  lemma CalleeFound(list: seq<Service>, i: nat, j: nat)
    requires i < |list| && j < |list[i].methods|
    ensures Lookup(list, list[i].name, list[i].methods[j]) == Info(REQUEST, Some(i), Some(j))
            <==> list[i].name !in Names(list[..i]) && list[i].methods[j] !in list[i].methods[..j]
  {
    var name, meth := list[i].name, list[i].methods[j];
    var names := Names(list);
    assert names[..i] == Names(list[..i]);
    FirstExactly(names, i);
    FirstExactly(list[i].methods, j);
  }

  lemma FirstExactly(names: seq<seq<byte>>, i: nat)
    requires i < |names|
    ensures IndexOf(names, names[i]) == Some(i) <==> names[i] !in names[..i]
  {
    assert names[i] in names;
    var r := IndexOf(names, names[i]).value;
    if r < i { assert names[r] in names[..i]; }
  }

  /** Every strict prefix of a request is recognised as incomplete. */
  lemma RequestTruncated(list: Option<seq<Service>>, service: seq<byte>, meth: seq<byte>, body: seq<byte>, k: nat)
    requires |service| < TWO64 && |meth| < TWO64 && |Header(service, meth)| <= HEADER_SIZE && |body| < TWO32
    requires k < |Request(service, meth, body)|
    ensures ParseRequest(list, Request(service, meth, body)[..k]) == Incomplete
  {
    hide Enc, Be32, UnBe32;
    var header, buf := Header(service, meth), Request(service, meth, body);
    FramedParts(header, body, []);
    assert buf + [] == buf;
    if k >= PRE_HEADER {
      assert buf[..k][0..4] == buf[0..4] && buf[..k][4..8] == buf[4..8] && buf[..k][8..12] == buf[8..12];
    }
  }

  // ---- headers with their fields in any order ----

  /** A header's tree in which service and method occur once, at `i` and `j`, among any number of types. */
  ghost predicate HeaderTree(items: seq<Item>, i: nat, j: nat, service: seq<byte>, meth: seq<byte>) {
    && i < |items| && j < |items|
    && items[i] == Single(SERVICE, Str(service)) && items[j] == Single(METHOD, Str(meth))
    && forall k :: 0 <= k < |items| && k != i && k != j ==> items[k].Single? && items[k].f == TYPE && items[k].v.Num?
  }

  /** What has been found when `n` of the header's fields have been decoded. */
  ghost predicate FoundBy(list: seq<Service>, info: Info, i: nat, j: nat, service: seq<byte>, meth: seq<byte>, n: nat) {
    var s := IndexOf(Names(list), service);
    && info.service == (if i < n then s else None)
    && info.meth == if j < n && i < j && s.Some? then IndexOf(list[s.value].methods, meth) else None
  }

  lemma FoundNext(list: seq<Service>, info: Info, items: seq<Item>, i: nat, j: nat, service: seq<byte>, meth: seq<byte>, n: nat)
    requires HeaderTree(items, i, j, service, meth) && n < |items| && FoundBy(list, info, i, j, service, meth, n)
    ensures items[n].Single? && FoundBy(list, OnField(Some(list), info, items[n].f, items[n].v), i, j, service, meth, n + 1)
  {
    hide IndexOf;
  }

  lemma {:induction false} GatherRest(list: seq<Service>, info: Info, items: seq<Item>, i: nat, j: nat, service: seq<byte>,
                                      meth: seq<byte>, n: nat, end: seq<Event>)
    requires HeaderTree(items, i, j, service, meth) && n <= |items| && FoundBy(list, info, i, j, service, meth, n)
    requires end == [MsgEnd(0, 1, false)]
    ensures FoundBy(list, Gather(Some(list), info, Events(0, 0, 1, items[n..]) + end), i, j, service, meth, |items|)
    decreases |items| - n
  {
    if n == |items| {
      assert items[n..] == [] && Events(0, 0, 1, items[n..]) + end == end && end[1..] == [];
      assert Gather(Some(list), info, []) == info;
    } else {
      FoundNext(list, info, items, i, j, service, meth, n);
      hide OnField, FoundBy, HeaderTree;
      var it := items[n];
      var next := OnField(Some(list), info, it.f, it.v);
      GatherRest(list, next, items, i, j, service, meth, n + 1, end);
      assert items[n..][0] == it && items[n..][1..] == items[n + 1..];
      var e, es := FieldEvent(0, it.f, Some(it.v)), Events(0, 0, 1, items[n + 1..]) + end;
      assert Events(0, 0, 1, items[n..]) + end == [e] + es;
      assert ([e] + es)[1..] == es;
    }
  }

  /** The format lets the header's fields come in any order. Decoding a header with one service and one method finds
      the first service of the name, wherever it is; it finds a method exactly when the service's name comes first
      and is known, with a method of that name. */
  lemma FoundInAnyOrder(list: seq<Service>, items: seq<Item>, i: nat, j: nat, service: seq<byte>, meth: seq<byte>)
    requires HeaderTree(items, i, j, service, meth) && Shaped(items) && |Enc(items)| < TWO64
    ensures var info := Gather(Some(list), Info(0, None, None), Parse(DESCS, 0, Enc(items), true).events);
            var s := IndexOf(Names(list), service);
            && info.service == s
            && (info.meth.Some? <==> i < j && s.Some? && meth in list[s.value].methods)
            && (info.meth.Some? ==> info.meth == IndexOf(list[s.value].methods, meth))
  {
    HeaderTreeOk(items, i, j, service, meth);
    HeaderNumbersOk();
    var start, es, end := MsgStart(0, 1, false), Events(0, 0, 1, items), [MsgEnd(0, 1, false)];
    var info := Info(0, None, None);
    assert items[0..] == items;
    GatherRest(list, info, items, i, j, service, meth, 0, end);
    MessageRoundTrip(DESCS, 0, items, true);
    hide Parse, Enc, Shaped, HeaderTree, NumbersOk, Events;
    assert ([start] + (es + end))[1..] == es + end;
    assert Gather(Some(list), info, [start] + (es + end)) == Gather(Some(list), info, es + end);
    var s := IndexOf(Names(list), service);
    if s.Some? { Known(list[s.value].methods, meth); }
  }

  lemma Known(names: seq<seq<byte>>, name: seq<byte>)
    ensures IndexOf(names, name).Some? <==> name in names
  {
  }

  lemma HeaderTreeOk(items: seq<Item>, i: nat, j: nat, service: seq<byte>, meth: seq<byte>)
    requires HeaderTree(items, i, j, service, meth)
    ensures Declared(DESCS, 0, items) && Height(items) == 0
  {
    forall k | 0 <= k < |items| ensures DeclaredItem(DESCS, 0, items[k]) && items[k].Single? {
      if k != i && k != j { assert items[k].f == TYPE; }
    }
    PlainHeight(items);
  }

  lemma {:induction false} PlainHeight(items: seq<Item>)
    requires forall k :: 0 <= k < |items| ==> items[k].Single?
    ensures Height(items) == 0
    decreases |items|
  {
    if items != [] { PlainHeight(items[1..]); }
  }

  // ---- requests as bytes ----

  /** How long a header is, and which headers fit the buffer they are encoded in. */
  lemma HeaderLength(service: seq<byte>, meth: seq<byte>)
    requires |service| < TWO64 && |meth| < TWO64
    ensures |Header(service, meth)|
            == 2 + (1 + |Varint(|service|)| + |service|) + (1 + |Varint(|meth|)| + |meth|)
    ensures |Header(service, meth)| <= HEADER_SIZE <==> |service| + |meth| <= 122
  {
    HeaderJoined(service, meth);
    HeaderRecordBytes(service, meth);
    var rs := HeaderRecords(service, meth);
    JoinedThree(rs[0], rs[1], rs[2]);
    hide *;
    assert rs == [rs[0], rs[1], rs[2]] by { ThreeRecords(service, meth); }
    if |service| < 128 { OneByte(|service|); }
    if |meth| < 128 { OneByte(|meth|); }
  }

  lemma ThreeRecords(service: seq<byte>, meth: seq<byte>)
    requires |service| < TWO64 && |meth| < TWO64
    ensures |HeaderRecords(service, meth)| == 3
  {
  }

  /** The three records of a header. */
  lemma HeaderRecordBytes(service: seq<byte>, meth: seq<byte>)
    requires |service| < TWO64 && |meth| < TWO64
    ensures HeaderRecords(service, meth)
            == [[0x08, 0x00], [0x12] + (Varint(|service|) + service), [0x1a] + (Varint(|meth|) + meth)]
  {
    WireNumber(Enum, Num(REQUEST));
    TypeRecord();
    TextRecord(SERVICE, service);
    TextRecord(METHOD, meth);
    hide Varint, ToWire, Record;
  }

  lemma TypeRecord()
    ensures Record(TYPE, WVarint(0)) == [0x08, 0x00]
  {
    OneByte(8);
    OneByte(0);
  }

  lemma TextRecord(f: Field, s: seq<byte>)
    requires f.number < 16
    ensures Record(f, WString(s)) == [f.number * 8 + 2] + (Varint(|s|) + s)
  {
    TextKey(f);
    OneByte(f.number * 8 + 2);
    hide Varint, Key;
  }

  lemma TextKey(f: Field)
    requires f.number < 16
    ensures Key(f, WtString) == f.number * 8 + 2
  {
  }

  /** A request for the method "b" of the service "A", with two bytes of message. */
  lemma RequestBytes()
    ensures |Header([0x41], [0x62])| == 8 <= HEADER_SIZE
    ensures Request([0x41], [0x62], [7, 9])
            == [0xde, 0xad, 0xbe, 0xaf, 0, 0, 0, 8, 0, 0, 0, 2]
               + (([0x08, 0x00] + ([0x12, 0x01, 0x41] + [0x1a, 0x01, 0x62])) + [7, 9])
  {
    HeaderBytes();
    hide Header, Framed;
    FramedBytes(Header([0x41], [0x62]), [7, 9]);
  }

  lemma HeaderBytes()
    ensures Header([0x41], [0x62]) == [0x08, 0x00] + ([0x12, 0x01, 0x41] + [0x1a, 0x01, 0x62])
  {
    HeaderJoined([0x41], [0x62]);
    HeaderRecordBytes([0x41], [0x62]);
    OneByte(1);
    assert [0x12] + ([1] + [0x41]) == [0x12, 1, 0x41] && [0x1a] + ([1] + [0x62]) == [0x1a, 1, 0x62];
    hide *;
    JoinedThree([0x08, 0x00], [0x12, 1, 0x41], [0x1a, 1, 0x62]);
  }

  /** A frame with a header of eight bytes and a message of two. */
  lemma FramedBytes(header: seq<byte>, body: seq<byte>)
    requires |header| == 8 && |body| == 2
    ensures Framed(header, body) == [0xde, 0xad, 0xbe, 0xaf, 0, 0, 0, 8, 0, 0, 0, 2] + (header + body)
  {
    WordBytes();
    hide Be32;
  }

  lemma WordBytes()
    ensures Be32(0xdead_beaf) == [0xde, 0xad, 0xbe, 0xaf]
    ensures Be32(0) == [0, 0, 0, 0] && Be32(2) == [0, 0, 0, 2] && Be32(8) == [0, 0, 0, 8]
    ensures Be32(0x0102_0304) == [1, 2, 3, 4]
  {
    LeOne(0xdead_beaf, 3);
    LeOne(0xde_adbe, 2);
  }

  lemma LeOne(v: nat, k: nat)
    ensures Le(v, k + 1) == [v % 256] + Le(v / 256, k)
  {
  }

  /** A word received, highest byte first. */
  function BigEndian(s: seq<byte>): nat
    requires |s| == 4
  {
    var a: int, b: int, c: int, d: int := s[0], s[1], s[2], s[3];
    a * 0x100_0000 + b * 0x1_0000 + c * 0x100 + d
  }

  lemma WordRead(s: seq<byte>)
    requires |s| == 4
    ensures UnBe32(s) == BigEndian(s)
  {
    var a, b, c, d := s[0], s[1], s[2], s[3];
    assert [d, c, b, a][1..] == [c, b, a] && [c, b, a][1..] == [b, a] && [b, a][1..] == [a] && [a][1..] == [];
    assert UnLe([]) == 0 && UnLe([a]) == a && UnLe([b, a]) == b + 256 * UnLe([a]);
    assert UnLe([c, b, a]) == c + 256 * UnLe([b, a]) && UnLe([d, c, b, a]) == d + 256 * UnLe([c, b, a]);
  }

  lemma MagicBytes(s: seq<byte>)
    requires |s| == 4
    ensures BigEndian(s) == 0xdead_beaf <==> s == [0xde, 0xad, 0xbe, 0xaf]
  {
  }

  /** What becomes of any bytes received, in terms of the bytes: three words in front, the first of them the magic
      number, then a header and a message as long as the others say. */
  lemma ReceivedBytes(list: Option<seq<Service>>, buf: seq<byte>)
    ensures var r := ParseRequest(list, buf);
            if |buf| < 12 then r == Incomplete
            else if buf[0..4] != [0xde, 0xad, 0xbe, 0xaf] then r == BadMagic
            else
              var header, message := BigEndian(buf[4..8]), BigEndian(buf[8..12]);
              if |buf| < 12 + header + message then r == Incomplete
              else r.Whole? && r.headerLen == 12 + header && r.msgLen == message
                   && r.status == Parse(DESCS, 0, buf[12..12 + header], true).status
  {
    hide Parse, UnBe32, BigEndian, Gather;
    if |buf| >= 12 {
      WordRead(buf[0..4]);
      MagicBytes(buf[0..4]);
      WordRead(buf[4..8]);
      WordRead(buf[8..12]);
    }
  }

  /** The result codes: 0 for a whole request, 1 as long as something is missing, 2 for a wrong magic number, and the
      codec's own 4 for a header that breaks off. */
  lemma ResultCodes(r: Received)
    requires r.Whole? ==> Defined(r.status)
    ensures r.Incomplete? <==> Code(r) == 1
    ensures r.BadMagic? <==> Code(r) == 2
    ensures r.Whole? && r.status.Done? <==> Code(r) == 0
    ensures r.Whole? && r.status.Truncated? <==> Code(r) == 4
  {
  }

  /** A type is read as a signed number of 32 bits, whatever varint it comes as. */
  lemma TypeRead(list: Option<seq<Service>>, info: Info, v: u64, used: nat)
    ensures var h := Interpret(Some(TYPE), Some(WVarint(v)), used);
            h.Scalar? && Narrowed(OnField(list, info, h.f, h.v).msgType, v, -0x8000_0000, 0x1_0000_0000)
  {
    ReadNumber(Enum, WVarint(v));
    hide FromWire, Narrowed;
  }

  // ---- requests whose header was cut ----

  /** A string that says it is longer than what follows. */
  lemma NameCut(last: Option<Field>, f: Field, len: nat, tail: seq<byte>)
    requires f.number < 16 && |tail| < len < TWO64
    ensures ReadField(DESCS, 0, Varint(Key(f, WtString)) + (Varint(len) + tail), last, true) == Stopped(Truncated)
  {
    hide Varint, ReadVarint, Key, Lookup;
    KeyParts(f, WtString);
    VarintRoundTrip(Key(f, WtString), Varint(len) + tail);
    FrontDropped(Varint(Key(f, WtString)), Varint(len) + tail);
    VarintRoundTrip(len, tail);
  }

  /** The first field of a header, and what comes behind it. */
  lemma TypeFirst(rest: seq<byte>)
    ensures ParseFields(DESCS, 0, 0, Record(TYPE, ToWire(Enum, Num(REQUEST))) + rest, None, 1, true).status
            == ParseFields(DESCS, 0, 0, rest, Some(TYPE), 1, true).status
  {
    HeaderNumbersOk();
    SingleRoundTrip(DESCS, 0, 0, TYPE, Num(REQUEST), rest, None, 1, true,
                    ParseFields(DESCS, 0, 0, rest, Some(TYPE), 1, true));
  }

  lemma ServiceNext(service: seq<byte>, rest: seq<byte>)
    requires |service| < TWO64
    ensures ParseFields(DESCS, 0, 0, Record(SERVICE, WString(service)) + rest, Some(TYPE), 1, true).status
            == ParseFields(DESCS, 0, 0, rest, Some(SERVICE), 1, true).status
  {
    HeaderNumbersOk();
    SingleRoundTrip(DESCS, 0, 0, SERVICE, Str(service), rest, Some(TYPE), 1, true,
                    ParseFields(DESCS, 0, 0, rest, Some(SERVICE), 1, true));
  }

  lemma StopsAt(s: seq<byte>, last: Option<Field>, status: Status)
    requires s != [] && ReadField(DESCS, 0, s, last, true) == Stopped(status)
    ensures ParseFields(DESCS, 0, 0, s, last, 1, true).status == status
  {
    hide ReadField;
  }

  /** What decoding makes of a header that was sent. */
  function StatusOfSent(service: seq<byte>, meth: seq<byte>): Status {
    if |service| + |meth| <= 122 || |service| == 124 then Done
    else if |service| == 123 then PastEnd
    else Truncated
  }

  lemma AddedName(h: seq<byte>, f: Field, name: seq<byte>)
    requires |h| <= HEADER_SIZE && f.number < 16 && |name| < TWO64
    ensures var r, left, n := Record(f, WString(name)), 128 - |h|, |Varint(|name|)|;
            && |r| == 1 + n + |name| && 1 <= n <= 10
            && Added(h, f, WString(name))
               == if 1 + n + |name| <= left then h + r
                  else h + r[..if left == 0 then 0 else if left - 1 < n then left else 1 + n]
  {
    TextRecord(f, name);
    TextKey(f);
    OneByte(f.number * 8 + 2);
    VarintBounds(|name|);
    hide Varint, Record, Key;
  }

  /** A service name too long for the header: what follows it there is shorter than it. */
  lemma LongService(service: seq<byte>, meth: seq<byte>) returns (tail: seq<byte>)
    requires 124 < |service| < TWO64 && |meth| < TWO64
    ensures |tail| < |service|
    ensures HeaderSent(service, meth)
            == Record(TYPE, ToWire(Enum, Num(REQUEST)))
               + (Varint(Key(SERVICE, WtString)) + (Varint(|service|) + tail))
  {
    SentIs(service, meth);
    AddedFirst();
    var t := Record(TYPE, ToWire(Enum, Num(REQUEST)));
    hide HeaderSent, Header, Varint, Record, Key, ToWire, Added;
    AddedName(t, SERVICE, service);
    NameFront(SERVICE, service);
    var front := Varint(Key(SERVICE, WtString)) + Varint(|service|);
    tail := AddedTail(t + front, METHOD, meth);
    Regrouped(t, front, tail);
    Regrouped(Varint(Key(SERVICE, WtString)), Varint(|service|), tail);
  }

  /** A name's record starts with its key and its length. */
  lemma NameFront(f: Field, name: seq<byte>)
    requires f.number < 16
    ensures var front := Varint(Key(f, WtString)) + Varint(|name|);
            && |front| == 1 + |Varint(|name|)| <= |Record(f, WString(name))|
            && Record(f, WString(name))[..|front|] == front
  {
    TextRecord(f, name);
    TextKey(f);
    OneByte(f.number * 8 + 2);
    hide Varint, Key, Record;
  }

  lemma AddedTail(h: seq<byte>, f: Field, name: seq<byte>) returns (tail: seq<byte>)
    requires |h| <= HEADER_SIZE && f.number < 16 && |name| < TWO64
    ensures Added(h, f, WString(name)) == h + tail && |h| + |tail| <= HEADER_SIZE
  {
    AddedName(h, f, name);
    hide Record, Added, Varint;
    var r, left, n := Record(f, WString(name)), 128 - |h|, |Varint(|name|)|;
    tail := if 1 + n + |name| <= left then r else r[..if left == 0 then 0 else if left - 1 < n then left else 1 + n];
  }

  lemma AddedFirst()
    ensures Added([], TYPE, ToWire(Enum, Num(REQUEST))) == Record(TYPE, ToWire(Enum, Num(REQUEST)))
    ensures |Record(TYPE, ToWire(Enum, Num(REQUEST)))| == 2
  {
    WireNumber(Enum, Num(REQUEST));
    TypeRecord();
    hide Record, ToWire;
    assert [] + [0x08, 0x00] == [0x08, 0x00];
  }

  /** A service name that fits: of the method as much as there is room for. */
  lemma ShortService(service: seq<byte>, meth: seq<byte>) returns (k: nat)
    requires |service| <= 124 && |meth| < TWO64
    ensures k <= |Record(METHOD, WString(meth))|
    ensures k == |Record(METHOD, WString(meth))| <==> |service| + |meth| <= 122
    ensures |service| + |meth| > 122 ==>
              (|service| == 124 ==> k == 0) && (|service| == 123 ==> k == 1) && (|service| < 123 ==> k >= 2)
    ensures HeaderSent(service, meth)
            == Record(TYPE, ToWire(Enum, Num(REQUEST)))
               + (Record(SERVICE, WString(service)) + Record(METHOD, WString(meth))[..k])
  {
    SentIs(service, meth);
    AddedFirst();
    OneByte(|service|);
    if |meth| < 128 { OneByte(|meth|); }
    var w := ToWire(Enum, Num(REQUEST));
    hide HeaderSent, Header, Varint, Record, Key, ToWire, Added;
    var t, r, m := Record(TYPE, w), Record(SERVICE, WString(service)), Record(METHOD, WString(meth));
    AddedName(t, SERVICE, service);
    AddedName(t + r, METHOD, meth);
    var left, n := 124 - |service|, |Varint(|meth|)|;
    if 1 + n + |meth| <= left {
      k := |m|;
      TakeAll(m);
    } else {
      k := if left == 0 then 0 else if left - 1 < n then left else 1 + n;
    }
    Regrouped(t, r, m[..k]);
  }

  lemma TakeAll(s: seq<byte>)
    ensures s[..|s|] == s
  {
  }

  /** What decoding makes of the header that was sent. A header that does not fit breaks off, and the receiver reports
      the end of the buffer, with two exceptions: behind a service name of 124 bytes nothing of the method is sent, and
      the header is accepted without it; behind one of 123 bytes only the method's key is, and the receiver reads past
      the end. */
  lemma SentDecodes(service: seq<byte>, meth: seq<byte>)
    requires |service| < TWO64 && |meth| < TWO64
    ensures Parse(DESCS, 0, HeaderSent(service, meth), true).status == StatusOfSent(service, meth)
  {
    hide HeaderSent, Record, Varint, Key, ToWire, ReadField, ParseFields;
    if |service| > 124 {
      var tail := LongService(service, meth);
      var rest := Varint(Key(SERVICE, WtString)) + (Varint(|service|) + tail);
      TypeFirst(rest);
      NameCut(Some(TYPE), SERVICE, |service|, tail);
      StopsAt(rest, Some(TYPE), Truncated);
    } else {
      var k := ShortService(service, meth);
      var m := Record(METHOD, WString(meth));
      TypeFirst(Record(SERVICE, WString(service)) + m[..k]);
      ServiceNext(service, m[..k]);
      MethodLast(meth, k);
    }
  }

  /** The method's record, or a part of it. */
  lemma MethodLast(meth: seq<byte>, k: nat)
    requires |meth| < TWO64 && k <= |Record(METHOD, WString(meth))|
    ensures ParseFields(DESCS, 0, 0, Record(METHOD, WString(meth))[..k], Some(SERVICE), 1, true).status
            == if k == 0 || k == |Record(METHOD, WString(meth))| then Done else if k == 1 then PastEnd else Truncated
  {
    var m := Record(METHOD, WString(meth));
    TextKey(METHOD);
    OneByte(26);
    NothingLeft(Some(SERVICE));
    NothingLeft(Some(METHOD));
    hide Record, Varint, Key, ReadField, ParseFields;
    if k == |m| {
      HeaderNumbersOk();
      assert m[..k] == m + [];
      SingleRoundTrip(DESCS, 0, 0, METHOD, Str(meth), [], Some(SERVICE), 1, true,
                      ParseFields(DESCS, 0, 0, [], Some(METHOD), 1, true));
    } else if k == 0 {
      assert m[..k] == [];
    } else {
      RecordCut(DESCS, 0, METHOD, WString(meth), k, Some(SERVICE), true);
      StopsAt(m[..k], Some(SERVICE), StatusOfPart(METHOD, WString(meth), k));
    }
  }

  lemma NothingLeft(last: Option<Field>)
    ensures ParseFields(DESCS, 0, 0, [], last, 1, true).status.Done?
  {
  }

  /** What a receiver makes of any request that is sent, whole or with its header cut. */
  lemma SentIsReceived(list: Option<seq<Service>>, service: seq<byte>, meth: seq<byte>, body: seq<byte>, more: seq<byte>)
    requires |service| < TWO64 && |meth| < TWO64 && |body| < TWO32
    ensures var r := ParseRequest(list, Framed(HeaderSent(service, meth), body) + more);
            && r.Whole? && r.status == StatusOfSent(service, meth)
            && r.headerLen == PRE_HEADER + |HeaderSent(service, meth)| && r.msgLen == |body|
  {
    hide Parse, HeaderSent, Framed, UnBe32, Gather;
    FramedParts(HeaderSent(service, meth), body, more);
    SentDecodes(service, meth);
  }
}
