/** Encodings the repository's own vectors give, byte for byte: they pin the constants of the format. */
module Vectors {
  import opened Wire
  import opened Schema
  import opened Scalars
  import opened Format
  import opened PyObjects
  import opened DictEncoder
  import opened ObjectBytes

  function Sample(number: u32, t: Type): Field {
    Field(0, number, t, Required, false, 0, "test")
  }

  lemma TwoBytes(v: nat)
    requires 128 <= v < 0x4000
    ensures Varint(v) == [128 + v % 128, v / 128]
  {
  }

  /** Small numbers and short strings under a key of one byte. */
  lemma SmallNumber(f: Field, v: nat)
    requires f.number < 16 && v < 128
    ensures Record(f, WVarint(v)) == [f.number * 8, v]
  {
    OneByte(f.number * 8);
    OneByte(v);
  }

  lemma ShortText(f: Field, s: seq<byte>)
    requires f.number < 16 && |s| < 128
    ensures Record(f, WString(s)) == [f.number * 8 + 2, |s|] + s
  {
    OneByte(f.number * 8 + 2);
    OneByte(|s|);
    hide Varint;
    assert Key(f, WtString) == f.number * 8 + 2;
  }

  /** Enums at the ends of a varint's lengths. */
  lemma EnumBytes()
    ensures EncItem(Single(Sample(1, Enum), Num(127))) == [0x08, 0x7f]
    ensures EncItem(Single(Sample(1, Enum), Num(128))) == [0x08, 0x80, 0x01]
    ensures EncItem(Single(Sample(1, Enum), Num(16383))) == [0x08, 0xff, 0x7f]
  {
    WireNumber(Enum, Num(127));
    WireNumber(Enum, Num(128));
    WireNumber(Enum, Num(16383));
    SmallNumber(Sample(1, Enum), 127);
    TwoBytes(128);
    TwoBytes(16383);
    OneByte(8);
    hide Varint, ToWire;
  }

  /** Three-byte strings with keys of one and of two bytes. */
  lemma StringBytes(s: seq<byte>)
    requires |s| == 3
    ensures EncItem(Single(Sample(15, String), Str(s))) == [0x7a, 0x03] + s
    ensures EncItem(Single(Sample(16, String), Str(s))) == [0x82, 0x01, 0x03] + s
  {
    ShortText(Sample(15, String), s);
    TwoBytes(130);
    OneByte(3);
    hide Varint;
  }

  lemma ZigZagBytes()
    ensures EncItem(Single(Sample(43, SInt32), Num(-1000))) == [0xd8, 0x02, 0xcf, 0x0f]
  {
    WireNumber(SInt32, Num(-1000));
    TwoBytes(344);
    TwoBytes(1999);
    hide Varint, ToWire;
  }

  lemma FixedBytes()
    ensures EncItem(Single(Sample(100, SFixed32), Num(-1000))) == [0xa5, 0x06, 0x18, 0xfc, 0xff, 0xff]
  {
    TwoBytes(805);
    var v := TWO32 - 1000;
    assert ToU32(-1000) == v;
    assert Le(v / 256 / 256, 2) == [0xff, 0xff];
    assert Le(v, 4) == [0x18, 0xfc] + Le(v / 256 / 256, 2);
  }

  /** A nested message with an integer and a string of twelve bytes: key, length, and its fields. */
  lemma NestedBytes(f: Field, hello: seq<byte>)
    requires f == Field(0, 2, Message, Repeated, false, 1, "f_nested2") && |hello| == 12
    ensures var items := [Single(Sample(5, Int32), Num(16)), Single(Sample(9, String), Str(hello))];
            Shaped(items) && EncItem(Nested(f, items)) == [0x12, 0x10, 0x28, 0x10, 0x4a, 0x0c] + hello
  {
    NestedFields(hello);
    BodyBytes(f, [0x28, 0x10, 0x4a, 0x0c] + hello);
    hide Enc, Shaped, Record, Fits;
  }

  lemma BodyBytes(f: Field, body: seq<byte>)
    requires f == Field(0, 2, Message, Repeated, false, 1, "f_nested2") && |body| == 16
    ensures Record(f, WString(body)) == [0x12, 0x10] + body
  {
    ShortText(f, body);
  }

  lemma NestedFields(hello: seq<byte>)
    requires |hello| == 12
    ensures var items := [Single(Sample(5, Int32), Num(16)), Single(Sample(9, String), Str(hello))];
            Shaped(items) && Enc(items) == [0x28, 0x10, 0x4a, 0x0c] + hello
  {
    var a, b := Single(Sample(5, Int32), Num(16)), Single(Sample(9, String), Str(hello));
    SmallInt();
    TextField(hello);
    hide EncItem, ShapedItem;
    assert [a, b][1..] == [b] && [b][1..] == [];
    assert Enc([]) == [] && Enc([b]) == EncItem(b) + [] && Enc([a, b]) == EncItem(a) + Enc([b]);
  }

  lemma SmallInt()
    ensures ShapedItem(Single(Sample(5, Int32), Num(16)))
    ensures EncItem(Single(Sample(5, Int32), Num(16))) == [0x28, 0x10]
  {
    WireNumber(Int32, Num(16));
    SmallNumber(Sample(5, Int32), 16);
    hide Record, ToWire;
  }

  lemma TextField(s: seq<byte>)
    requires |s| == 12
    ensures ShapedItem(Single(Sample(9, String), Str(s)))
    ensures EncItem(Single(Sample(9, String), Str(s))) == [0x4a, 0x0c] + s
  {
    ShortText(Sample(9, String), s);
    hide Record;
  }

  // ---- lists, packed and not ----

  function Listed(packed: bool): Field {
    Field(0, 2, SInt32, Repeated, packed, 0, "arr")
  }

  lemma ListSuits(packed: bool)
    ensures var f, x := Listed(packed), PyList([PyScalar(Num(-1)), PyScalar(Num(1))]);
            && Suits([MsgDesc([f])], f, x) && Encodable([MsgDesc([f])], 0, PyDict(map["arr" := x]))
  {
    var f, x := Listed(packed), PyList([PyScalar(Num(-1)), PyScalar(Num(1))]);
    forall j | 0 <= j < Count(x) ensures Element(x, j).PyScalar? && Fits(SInt32, Element(x, j).v) {
      assert j == 0 || j == 1;
    }
  }

  /** The list [-1, 1] for a zig-zag field numbered 2: two records, or one when the field is packed. */
  lemma ListBytes(packed: bool)
    ensures var f := Listed(packed);
            var obj := PyDict(map["arr" := PyList([PyScalar(Num(-1)), PyScalar(Num(1))])]);
            && Encodable([MsgDesc([f])], 0, obj)
            && Enc(ItemsOf([MsgDesc([f])], 0, obj))
               == if packed then [0x12, 0x02, 0x01, 0x02] else [0x10, 0x01, 0x10, 0x02]
  {
    var f, x := Listed(packed), PyList([PyScalar(Num(-1)), PyScalar(Num(1))]);
    var descs, obj := [MsgDesc([f])], PyDict(map["arr" := x]);
    ListSuits(packed);
    ObjectIsItsFields(descs, 0, obj);
    ListPart(packed);
    hide *;
    assert FieldsOf(descs, 0) == [f] by { OneField(f); }
    var parts := FieldParts(descs, 0, obj, 1);
    JoinedNext([], parts[0]);
    assert [] + [parts[0]] == parts;
    JoinedNone();
  }

  lemma OneField(f: Field)
    ensures FieldsOf([MsgDesc([f])], 0) == [f]
  {
  }

  lemma JoinedNone()
    ensures Joined([]) == []
  {
  }

  lemma ListPart(packed: bool)
    requires Suits([MsgDesc([Listed(packed)])], Listed(packed), PyList([PyScalar(Num(-1)), PyScalar(Num(1))]))
    ensures FieldPart([MsgDesc([Listed(packed)])], Listed(packed), PyList([PyScalar(Num(-1)), PyScalar(Num(1))]))
            == if packed then [0x12, 0x02, 0x01, 0x02] else [0x10, 0x01, 0x10, 0x02]
  {
    var f, xs := Listed(packed), [PyScalar(Num(-1)), PyScalar(Num(1))];
    var descs := [MsgDesc([f])];
    SuitsGiven(descs, f, PyList(xs));
    WireNumber(SInt32, Num(-1));
    WireNumber(SInt32, Num(1));
    hide ToWire, Suits;
    assert Given(PyList(xs)) == xs;
    assert Bare(descs, f, xs[0]) == WVarint(1) && Bare(descs, f, xs[1]) == WVarint(2);
    if packed {
      OneByte(1);
      OneByte(2);
      JoinedTwo(BareValues(descs, f, xs), [1], [2]);
      hide Varint;
      ShortText(f, [1, 2]);
      assert [0x12, 0x02] + [1, 2] == [0x12, 0x02, 0x01, 0x02];
    } else {
      SmallNumber(f, 1);
      SmallNumber(f, 2);
      hide Record;
      JoinedTwo(KeyedRecords(descs, f, xs), [0x10, 0x01], [0x10, 0x02]);
    }
  }

  lemma JoinedTwo(parts: seq<seq<byte>>, a: seq<byte>, b: seq<byte>)
    requires |parts| == 2 && parts[0] == a && parts[1] == b
    ensures Joined(parts) == a + b
  {
    assert parts == [a, b] && [a, b][..1] == [a] && [a][..0] == [];
    assert Joined([a]) == [] + a;
  }
}
