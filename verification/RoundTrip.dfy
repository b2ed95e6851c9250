/** Decoding undoes encoding. */
module RoundTrip {
  import opened Wire
  import opened Schema
  import opened Scalars
  import opened Format
  import opened Parser

  // ---- the events of a tree ----

  ghost function Events(root: nat, m: nat, depth: nat, items: seq<Item>): seq<Event>
    decreases items, 1
  {
    if items == [] then [] else ItemEvents(root, m, depth, items[0]) + Events(root, m, depth, items[1..])
  }

  ghost function ItemEvents(root: nat, m: nat, depth: nat, it: Item): seq<Event>
    decreases it, 0
  {
    match it
    case Single(f, v) => [FieldEvent(m, f, Some(v))]
    case Packed(f, vs) => [MsgStart(m, depth + 1, true)] + (ElementEvents(m, f, vs) + [MsgEnd(m, depth + 1, true)])
    case Nested(f, body) =>
      [FieldEvent(root, f, None)] + ([MsgStart(f.msg, depth + 1, false)]
      + (Events(root, f.msg, depth + 1, body) + [MsgEnd(f.msg, depth + 1, false)]))
  }

  function ElementEvents(m: nat, f: Field, vs: seq<Value>): seq<Event> {
    if vs == [] then [] else [FieldEvent(m, f, Some(vs[0]))] + ElementEvents(m, f, vs[1..])
  }

  /** The events of a whole message, in encoding order. */
  ghost function MessageEvents(m: nat, items: seq<Item>): seq<Event> {
    [MsgStart(m, 1, false)] + (Events(m, m, 1, items) + [MsgEnd(m, 1, false)])
  }

  /** The field decoded last. */
  ghost function LastField(items: seq<Item>, last: Option<Field>): Option<Field>
    decreases items, 1
  {
    if items == [] then last else LastField(items[1..], LastOfItem(items[0]))
  }

  ghost function LastOfItem(it: Item): Option<Field>
    decreases it, 0
  {
    if it.Nested? then LastField(it.body, Some(it.f)) else Some(it.f)
  }

  // ---- descriptors ----

  /** Field numbers are in range and distinct within each message. */
  ghost predicate NumbersOk(descs: Descs) {
    forall m, f {:trigger f in FieldsOf(descs, m)} :: f in FieldsOf(descs, m) ==>
      f.number < 0x2000_0000 && Lookup(FieldsOf(descs, m), f.number) == Some(f)
  }

  // ---- single records ----

  lemma WireRoundTrip(w: WireValue, rest: seq<byte>)
    requires w.WString? ==> |w.s| < TWO64
    ensures ReadWire(WireTypeCode(WireTypeOf(w)), EncWire(w) + rest) == Read(w, |EncWire(w)|)
  {
    var s := EncWire(w) + rest;
    match w
    case WVarint(v) => VarintRoundTrip(v, rest);
    case W64(d) =>
      assert s[..8] == Le(d, 8);
      Pow256Widths();
      LeRoundTrip(d, 8);
    case W32(d) =>
      assert s[..4] == Le(d, 4);
      Pow256Widths();
      LeRoundTrip(d, 4);
    case WString(b) =>
      assert s == Varint(|b|) + (b + rest);
      VarintRoundTrip(|b|, b + rest);
      assert s[|Varint(|b|)|..|Varint(|b|)| + |b|] == b;
  }

  lemma KeyParts(f: Field, wt: WireType)
    requires f.number < 0x2000_0000
    ensures Key(f, wt) / 8 % TWO32 == f.number && Key(f, wt) % 8 == WireTypeCode(wt)
  {
  }

  lemma RecordRoundTrip(descs: Descs, m: nat, f: Field, w: WireValue, rest: seq<byte>, last: Option<Field>, keep: bool)
    requires NumbersOk(descs) && f in FieldsOf(descs, m)
    requires w.WString? ==> |w.s| < TWO64
    ensures ReadField(descs, m, Record(f, w) + rest, last, keep) == Interpret(Some(f), Some(w), |Record(f, w)|)
  {
    hide ReadWire, ReadVarint, Interpret, EncWire, Lookup, Key, Varint;
    var wt := WireTypeOf(w);
    var key := Varint(Key(f, wt));
    FrontSplit(key, EncWire(w), rest);
    VarintRoundTrip(Key(f, wt), EncWire(w) + rest);
    WireRoundTrip(w, rest);
    KeyParts(f, wt);
  }

  lemma FrontSplit<T>(a: seq<T>, b: seq<T>, c: seq<T>)
    ensures a + b + c == a + (b + c)
    ensures (a + (b + c))[|a|..] == b + c
  {
  }

  lemma FrontDropped<T>(a: seq<T>, b: seq<T>)
    ensures (a + b)[|a|..] == b
  {
  }

  lemma {:induction false} ElementsRoundTrip(m: nat, f: Field, vs: seq<Value>)
    requires PackedField(f) && FitAll(f.typ, vs)
    ensures ParsePacked(m, f, EncValues(f.typ, vs)) == Parsed(ElementEvents(m, f, vs), Done, Some(f))
    decreases |vs|
  {
    hide ToWire, FromWire, EncWire, ReadWire, Fits;
    if vs != [] {
      var w, rest := ToWire(f.typ, vs[0]), EncValues(f.typ, vs[1..]);
      var s := EncWire(w) + rest;
      WireRoundTrip(w, rest);
      ScalarRoundTrip(f.typ, vs[0]);
      assert s[|EncWire(w)|..] == rest;
      ElementsRoundTrip(m, f, vs[1..]);
    }
  }

  // ---- whole messages ----

  /** Decoding the encoding of a message's fields finds exactly the tree's events. */
  lemma {:induction false} FieldsRoundTrip(descs: Descs, root: nat, m: nat, items: seq<Item>, last: Option<Field>,
                                           depth: nat, keep: bool)
    requires NumbersOk(descs) && Shaped(items) && Declared(descs, m, items)
    requires depth + Height(items) <= MAX_DEPTH && |Enc(items)| < TWO64
    ensures ParseFields(descs, root, m, Enc(items), last, depth, keep)
            == Parsed(Events(root, m, depth, items), Done, LastField(items, last))
    decreases items, 1
  {
    hide Interpret, ReadField, EncItem, ItemEvents;
    if items != [] {
      var it, rest := items[0], items[1..];
      FieldsRoundTrip(descs, root, m, rest, LastOfItem(it), depth, keep);
      ItemRoundTrip(descs, root, m, it, Enc(rest), last, depth, keep,
                    Parsed(Events(root, m, depth, rest), Done, LastField(rest, LastOfItem(it))));
    }
  }

  lemma {:induction false} ItemRoundTrip(descs: Descs, root: nat, m: nat, it: Item, rest: seq<byte>, last: Option<Field>,
                                         depth: nat, keep: bool, after: Parsed)
    requires NumbersOk(descs) && ShapedItem(it) && DeclaredItem(descs, m, it)
    requires depth + HeightItem(it) <= MAX_DEPTH && |EncItem(it)| < TWO64
    requires ParseFields(descs, root, m, rest, LastOfItem(it), depth, keep) == after
    ensures ParseFields(descs, root, m, EncItem(it) + rest, last, depth, keep)
            == Emit(ItemEvents(root, m, depth, it), after)
    decreases it, 0
  {
    hide ParseFields, EncItem, ItemEvents;
    BodyShorter(it);
    match it
    case Single(f, v) => SingleRoundTrip(descs, root, m, f, v, rest, last, depth, keep, after);
    case Packed(f, vs) => PackedRoundTrip(descs, root, m, f, vs, rest, last, depth, keep, after);
    case Nested(f, body) =>
      FieldsRoundTrip(descs, root, f.msg, body, Some(f), depth + 1, keep);
      NestedRoundTrip(descs, root, m, f, body, rest, last, depth, keep, after);
  }

  /** A body is no longer than the record around it. */
  lemma BodyShorter(it: Item)
    requires ShapedItem(it)
    ensures it.Packed? ==> |EncValues(it.f.typ, it.vs)| <= |EncItem(it)|
    ensures it.Nested? ==> |Enc(it.body)| <= |EncItem(it)|
  {
  }

  lemma SingleRoundTrip(descs: Descs, root: nat, m: nat, f: Field, v: Value, rest: seq<byte>, last: Option<Field>,
                        depth: nat, keep: bool, after: Parsed)
    requires NumbersOk(descs) && ShapedItem(Single(f, v)) && f in FieldsOf(descs, m)
    requires ParseFields(descs, root, m, rest, Some(f), depth, keep) == after
    ensures ParseFields(descs, root, m, EncItem(Single(f, v)) + rest, last, depth, keep)
            == Emit(ItemEvents(root, m, depth, Single(f, v)), after)
  {
    hide ToWire, FromWire, EncWire, Fits, ReadField, Record;
    var w := ToWire(f.typ, v);
    RecordRoundTrip(descs, m, f, w, rest, last, keep);
    ScalarRoundTrip(f.typ, v);
    FrontDropped(Record(f, w), rest);
    assert Interpret(Some(f), Some(w), |Record(f, w)|) == Scalar(f, v, |Record(f, w)|);
  }

  lemma PackedRoundTrip(descs: Descs, root: nat, m: nat, f: Field, vs: seq<Value>, rest: seq<byte>, last: Option<Field>,
                        depth: nat, keep: bool, after: Parsed)
    requires NumbersOk(descs) && ShapedItem(Packed(f, vs)) && f in FieldsOf(descs, m)
    requires depth < MAX_DEPTH && |EncValues(f.typ, vs)| < TWO64
    requires ParseFields(descs, root, m, rest, Some(f), depth, keep) == after
    ensures ParseFields(descs, root, m, EncItem(Packed(f, vs)) + rest, last, depth, keep)
            == Emit(ItemEvents(root, m, depth, Packed(f, vs)), after)
  {
    hide EncWire, ReadField, Record, EncValues, Fits;
    var body := EncValues(f.typ, vs);
    var n := |Record(f, WString(body))|;
    RecordRoundTrip(descs, m, f, WString(body), rest, last, keep);
    ElementsRoundTrip(m, f, vs);
    FrontDropped(Record(f, WString(body)), rest);
    assert Interpret(Some(f), Some(WString(body)), n) == PackedBody(f, body, n);
    FramedDone(m, depth + 1, true, ElementEvents(m, f, vs), Some(f), after);
  }

  lemma NestedRoundTrip(descs: Descs, root: nat, m: nat, f: Field, body: seq<Item>, rest: seq<byte>, last: Option<Field>,
                        depth: nat, keep: bool, after: Parsed)
    requires NumbersOk(descs) && ShapedItem(Nested(f, body)) && f in FieldsOf(descs, m)
    requires depth < MAX_DEPTH && |Enc(body)| < TWO64
    requires ParseFields(descs, root, f.msg, Enc(body), Some(f), depth + 1, keep)
             == Parsed(Events(root, f.msg, depth + 1, body), Done, LastField(body, Some(f)))
    requires ParseFields(descs, root, m, rest, LastField(body, Some(f)), depth, keep) == after
    ensures ParseFields(descs, root, m, EncItem(Nested(f, body)) + rest, last, depth, keep)
            == Emit(ItemEvents(root, m, depth, Nested(f, body)), after)
  {
    hide EncWire, ReadField, Record, Enc, Events, LastField, Shaped;
    var n := |Record(f, WString(Enc(body)))|;
    RecordRoundTrip(descs, m, f, WString(Enc(body)), rest, last, keep);
    FrontDropped(Record(f, WString(Enc(body))), rest);
    assert Interpret(Some(f), Some(WString(Enc(body))), n) == Body(f, Enc(body), n);
    var es := Events(root, f.msg, depth + 1, body);
    FramedDone(f.msg, depth + 1, false, es, LastField(body, Some(f)), after);
    EmitEmit([FieldEvent(root, f, None)],
             [MsgStart(f.msg, depth + 1, false)] + (es + [MsgEnd(f.msg, depth + 1, false)]), after);
  }

  /** A complete frame followed by what comes after it. */
  lemma FramedDone(m: nat, depth: nat, packed: bool, es: seq<Event>, last: Option<Field>, after: Parsed)
    ensures Then(Framed(m, depth, packed, Parsed(es, Done, last)), after)
            == Emit([MsgStart(m, depth, packed)] + (es + [MsgEnd(m, depth, packed)]), after)
  {
  }

  /** The whole-codec round trip: the encoding of every well-typed tree decodes to exactly the tree's events. */
  lemma MessageRoundTrip(descs: Descs, m: nat, items: seq<Item>, keep: bool)
    requires NumbersOk(descs) && Shaped(items) && Declared(descs, m, items)
    requires Height(items) < MAX_DEPTH && |Enc(items)| < TWO64
    ensures Parse(descs, m, Enc(items), keep)
            == Parsed(MessageEvents(m, items), Done, LastField(items, None))
  {
    FieldsRoundTrip(descs, m, m, items, None, 1, keep);
  }

  // ---- the nesting limit ----

  /** Fields that nest too deep stop the parse, whatever comes before them. */
  lemma {:induction false} FieldsTooDeep(descs: Descs, root: nat, m: nat, items: seq<Item>, last: Option<Field>,
                                         depth: nat, keep: bool)
    requires NumbersOk(descs) && Shaped(items) && Declared(descs, m, items)
    requires depth <= MAX_DEPTH < depth + Height(items) && |Enc(items)| < TWO64
    ensures ParseFields(descs, root, m, Enc(items), last, depth, keep).status.Unmodelled?
    decreases items, 1
  {
    hide Interpret, ReadField, EncItem, ItemEvents, ParseFields;
    var it, rest := items[0], items[1..];
    if depth + HeightItem(it) <= MAX_DEPTH {
      FieldsTooDeep(descs, root, m, rest, LastOfItem(it), depth, keep);
      ItemRoundTrip(descs, root, m, it, Enc(rest), last, depth, keep,
                    ParseFields(descs, root, m, Enc(rest), LastOfItem(it), depth, keep));
    } else {
      ItemTooDeep(descs, root, m, it, Enc(rest), last, depth, keep);
    }
  }

  lemma {:induction false} ItemTooDeep(descs: Descs, root: nat, m: nat, it: Item, rest: seq<byte>, last: Option<Field>,
                                       depth: nat, keep: bool)
    requires NumbersOk(descs) && ShapedItem(it) && DeclaredItem(descs, m, it)
    requires depth <= MAX_DEPTH < depth + HeightItem(it) && |EncItem(it)| < TWO64
    ensures ParseFields(descs, root, m, EncItem(it) + rest, last, depth, keep).status.Unmodelled?
    decreases it, 0
  {
    hide EncWire, ReadField, Record, Enc, EncValues, Fits;
    BodyShorter(it);
    var body := if it.Packed? then EncValues(it.f.typ, it.vs) else Enc(it.body);
    var n := |Record(it.f, WString(body))|;
    RecordRoundTrip(descs, m, it.f, WString(body), rest, last, keep);
    FrontDropped(Record(it.f, WString(body)), rest);
    if it.Nested? && depth < MAX_DEPTH {
      FieldsTooDeep(descs, root, it.f.msg, it.body, Some(it.f), depth + 1, keep);
    }
  }

  /** The encoding of a well-typed tree is accepted exactly when it nests less than 32 deep: the outermost message
      takes the first of 32 frames, every nested message and packed field another. */
  lemma AcceptedExactlyWhenShallow(descs: Descs, m: nat, items: seq<Item>, keep: bool)
    requires NumbersOk(descs) && Shaped(items) && Declared(descs, m, items) && |Enc(items)| < TWO64
    ensures Parse(descs, m, Enc(items), keep).status.Done? <==> Height(items) < 32
  {
    if Height(items) < MAX_DEPTH {
      MessageRoundTrip(descs, m, items, keep);
    } else {
      FieldsTooDeep(descs, m, m, items, None, 1, keep);
    }
  }
}
