/** The decoder's behaviour as a recursive-descent parse of a byte string into the events its handlers see. */
module Parser {
  import opened Wire
  import opened Schema
  import opened Scalars

  /** A handler call: the arguments a handler gets and what it can read off the decoder. The field handler of a
      nested message gets no value and the root message's descriptor. */
  datatype Event =
    | MsgStart(msg: nat, depth: nat, packed: bool)
    | MsgEnd(msg: nat, depth: nat, packed: bool)
    | FieldEvent(msg: nat, f: Field, v: Option<Value>)

  /** How a parse ends. `PastEnd` marks inputs that end right behind a key that announces a varint: the source looks
      at a byte that is not there. `Unmodelled` marks inputs on which the source shifts by 70 bits,
      uses a wire value of another type than the field's, or exceeds the stack. */
  datatype Status = Done | Truncated | PastEnd | Unmodelled

  /** The source's behaviour is defined. */
  predicate Defined(status: Status) {
    status.Done? || status.Truncated?
  }

  /** Events, how the parse ended, and the field descriptor left over from the last field: the decoder does
      not reset it between fields. */
  datatype Parsed = Parsed(events: seq<Event>, status: Status, last: Option<Field>)

  function Emit(es: seq<Event>, p: Parsed): (r: Parsed) {
    Parsed(es + p.events, p.status, p.last)
  }

  function Then(p: Parsed, q: Parsed): (r: Parsed) {
    if p.status.Done? then Emit(p.events, q) else p
  }

  lemma EmitEmit(a: seq<Event>, b: seq<Event>, p: Parsed)
    ensures Emit(a, Emit(b, p)) == Emit(a + b, p)
  {
    assert a + (b + p.events) == a + b + p.events;
  }

  lemma EmitThen(a: seq<Event>, p: Parsed, q: Parsed)
    ensures Then(Emit(a, p), q) == Emit(a, Then(p, q))
  {
    assert a + (p.events + q.events) == a + p.events + q.events;
  }

  lemma ThenThen(p: Parsed, q: Parsed, r: Parsed)
    ensures Then(Then(p, q), r) == Then(p, Then(q, r))
  {
    EmitThen(p.events, q, r);
  }

  // ---- one field ----

  /** The first declared field with a number. */
  function Lookup(fields: seq<Field>, number: nat): (r: Option<Field>)
    ensures r.Some? ==> r.value in fields && r.value.number == number
    ensures r.None? ==> forall f :: f in fields ==> f.number != number
  {
    if fields == [] then None
    else if fields[0].number == number then Some(fields[0])
    else Lookup(fields[1..], number)
  }

  /** A wire value and its length, a reason to stop, or nothing at all for an unknown wire type. */
  datatype WireRead = Read(w: WireValue, used: nat) | Stop(status: Status) | NoValue

  function ReadWire(code: nat, s: seq<byte>): (r: WireRead)
    ensures r.Read? ==> r.used <= |s| && r.used >= 1 && WireTypeCode(WireTypeOf(r.w)) == code
    ensures r.Read? && r.w.WString? ==> |r.w.s| < r.used && |r.w.s| < TWO64
    ensures r.Stop? ==> !r.status.Done?
  {
    if code == 0 then
      if s == [] then Stop(PastEnd) else
      match ReadVarint(s)
      case Got(v, n) => Read(WVarint(v), n)
      case Short => Stop(Truncated)
      case TooLong => Stop(Unmodelled)
    else if code == 1 then
      if |s| < 8 then Stop(Truncated) else Read(W64(Word64(s)), 8)
    else if code == 2 then
      if s == [] then Stop(PastEnd) else
      match ReadVarint(s)
      case Got(len, n) => if len > |s| - n then Stop(Truncated) else Read(WString(s[n..n + len]), n + len)
      case Short => Stop(Truncated)
      case TooLong => Stop(Unmodelled)
    else if code == 5 then
      if |s| < 4 then Stop(Truncated) else Read(W32(Word32(s)), 4)
    else NoValue
  }

  function Word32(s: seq<byte>): (w: u32)
    requires |s| >= 4
  {
    UnLeRoundTrip(s[..4]);
    Pow256Widths();
    UnLe(s[..4])
  }

  function Word64(s: seq<byte>): (w: u64)
    requires |s| >= 8
  {
    UnLeRoundTrip(s[..8]);
    Pow256Widths();
    UnLe(s[..8])
  }

  /** What the decoder finds at the front of a message, and how many bytes it takes. */
  datatype Head =
    | Stopped(status: Status)
    | Skipped(used: nat)
    | Scalar(f: Field, v: Value, used: nat)
    | PackedBody(f: Field, body: seq<byte>, used: nat)
    | Body(f: Field, body: seq<byte>, used: nat)

  /** The descriptor a field is decoded with: the declared one, or, when the decoder keeps the descriptor of
      the last field (`keep`), that one for a number that is not declared. */
  function Resolve(fields: seq<Field>, number: nat, last: Option<Field>, keep: bool): Option<Field> {
    var found := Lookup(fields, number);
    if found.Some? then found else if keep then last else None
  }

  function ReadField(descs: Descs, m: nat, s: seq<byte>, last: Option<Field>, keep: bool): (h: Head)
    requires s != []
    ensures h.Stopped? ==> !h.status.Done?
    ensures !h.Stopped? ==> 1 <= h.used <= |s|
    ensures h.Body? || h.PackedBody? ==> |h.body| < h.used
    ensures h.PackedBody? ==> IsPackedRepeated(h.f)
  {
    match ReadVarint(s)
    case Short => Stopped(Truncated)
    case TooLong => Stopped(Unmodelled)
    case Got(key, n) =>
      var fd := Resolve(FieldsOf(descs, m), key / 8 % TWO32, last, keep);
      match ReadWire(key % 8, s[n..])
      case Stop(status) => Stopped(status)
      case NoValue => Interpret(fd, None, n)
      case Read(w, k) => Interpret(fd, Some(w), n + k)
  }

  /** What a field's descriptor makes of its wire value; `used` bytes went to key and value. */
  function Interpret(fd: Option<Field>, w: Option<WireValue>, used: nat): (h: Head)
    requires w.Some? && w.value.WString? ==> |w.value.s| < TWO64
    ensures h.Stopped? ==> h.status.Unmodelled?
    ensures !h.Stopped? ==> h.used == used
    ensures h.Body? || h.PackedBody? ==> w == Some(WString(h.body)) && fd == Some(h.f)
    ensures h.PackedBody? ==> IsPackedRepeated(h.f)
  {
    if fd.None? then Skipped(used)
    else if w.None? then Stopped(Unmodelled)
    else if w.value.WString? && IsPackedRepeated(fd.value) then PackedBody(fd.value, w.value.s, used)
    else if WireTypeOf(w.value) != FieldWireType(fd.value.typ) then Stopped(Unmodelled)
    else if fd.value.typ.Message? then Body(fd.value, w.value.s, used)
    else Scalar(fd.value, FromWire(fd.value.typ, w.value), used)
  }

  // ---- whole messages ----

  /** The fields of a message of kind `m` at a given depth, `root` being the outermost message. */
  function ParseFields(descs: Descs, root: nat, m: nat, s: seq<byte>, last: Option<Field>, depth: nat, keep: bool)
    : (p: Parsed)
    decreases |s|
  {
    if s == [] then Parsed([], Done, last)
    else
      var h := ReadField(descs, m, s, last, keep);
      match h
      case Stopped(status) => Parsed([], status, last)
      case Skipped(k) => ParseFields(descs, root, m, s[k..], last, depth, keep)
      case Scalar(f, v, k) =>
        Emit([FieldEvent(m, f, Some(v))], ParseFields(descs, root, m, s[k..], Some(f), depth, keep))
      case PackedBody(f, body, k) =>
        if depth >= MAX_DEPTH then Parsed([], Unmodelled, Some(f))
        else
          Then(Framed(m, depth + 1, true, ParsePacked(m, f, body)),
               ParseFields(descs, root, m, s[k..], Some(f), depth, keep))
      case Body(f, body, k) =>
        if depth >= MAX_DEPTH then Parsed([FieldEvent(root, f, None)], Unmodelled, Some(f))
        else
          var inner := ParseFields(descs, root, f.msg, body, Some(f), depth + 1, keep);
          Emit([FieldEvent(root, f, None)],
               Then(Framed(f.msg, depth + 1, false, inner),
                    ParseFields(descs, root, m, s[k..], inner.last, depth, keep)))
  }

  /** The elements of a packed field. */
  function ParsePacked(m: nat, f: Field, s: seq<byte>): (p: Parsed)
    ensures p.last == Some(f)
    decreases |s|
  {
    if s == [] then Parsed([], Done, Some(f))
    else if FieldWireType(f.typ).WtString? then Parsed([], Unmodelled, Some(f))
    else match ReadWire(WireTypeCode(FieldWireType(f.typ)), s)
      case Stop(status) => Parsed([], status, Some(f))
      case NoValue => Parsed([], Unmodelled, Some(f))
      case Read(w, k) => Emit([FieldEvent(m, f, Some(FromWire(f.typ, w)))], ParsePacked(m, f, s[k..]))
  }

  /** A frame's contents followed by its end event. */
  function Ended(m: nat, depth: nat, packed: bool, p: Parsed): (r: Parsed) {
    Then(p, Parsed([MsgEnd(m, depth, packed)], Done, p.last))
  }

  lemma EndedEmpty(m: nat, depth: nat, packed: bool, last: Option<Field>)
    ensures Ended(m, depth, packed, Parsed([], Done, last)) == Parsed([MsgEnd(m, depth, packed)], Done, last)
  {
    assert [] + [MsgEnd(m, depth, packed)] == [MsgEnd(m, depth, packed)];
  }

  /** A frame's contents between its start and end events. */
  function Framed(m: nat, depth: nat, packed: bool, p: Parsed): (r: Parsed) {
    Emit([MsgStart(m, depth, packed)], Ended(m, depth, packed, p))
  }

  /** A whole message. */
  function Parse(descs: Descs, m: nat, s: seq<byte>, keep: bool): (p: Parsed) {
    Framed(m, 1, false, ParseFields(descs, m, m, s, None, 1, keep))
  }
}
