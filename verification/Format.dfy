/** Message trees and the wire format as a recursive function on them. */
module Format {
  import opened Wire
  import opened Schema
  import opened Scalars

  /** One field of a message under construction, in encoding order: a plain value, a packed repeated field
      with all its values, or a nested message. */
  datatype Item =
    | Single(f: Field, v: Value)
    | Packed(f: Field, vs: seq<Value>)
    | Nested(f: Field, body: seq<Item>)

  /** Room kept in front of a nested message or packed field for its key and length. */
  const RESERVE: nat := 10

  // ---- well-typed trees ----

  /** Every value fits its field, packed fields are numeric, nested fields are messages. */
  ghost predicate Shaped(items: seq<Item>) {
    forall i {:trigger ShapedItem(items[i])} :: 0 <= i < |items| ==> ShapedItem(items[i])
  }

  ghost predicate ShapedItem(it: Item) {
    match it
    case Single(f, v) => !IsPackedRepeated(f) && !f.typ.Message? && Fits(f.typ, v)
    case Packed(f, vs) => PackedField(f) && FitAll(f.typ, vs)
    case Nested(f, body) => !IsPackedRepeated(f) && f.typ.Message? && Shaped(body)
  }

  /** A tree as decoding finds it: a packed field's values may also come one by one, and a packed field without any
      value may be of any type. */
  ghost predicate Typed(items: seq<Item>) {
    forall i {:trigger TypedItem(items[i])} :: 0 <= i < |items| ==> TypedItem(items[i])
  }

  ghost predicate TypedItem(it: Item) {
    match it
    case Single(f, v) => !f.typ.Message? && Fits(f.typ, v) && (IsPackedRepeated(f) ==> PackedField(f))
    case Packed(f, vs) => IsPackedRepeated(f) && FitAll(f.typ, vs) && (vs != [] ==> PackedField(f))
    case Nested(f, body) => !IsPackedRepeated(f) && f.typ.Message? && Typed(body)
  }

  lemma {:induction false} ShapedTyped(items: seq<Item>)
    requires Shaped(items)
    ensures Typed(items)
    decreases items
  {
    forall i | 0 <= i < |items| ensures TypedItem(items[i]) {
      assert ShapedItem(items[i]);
      if items[i].Nested? { ShapedTyped(items[i].body); }
    }
  }

  predicate PackedField(f: Field) {
    IsPackedRepeated(f) && !FieldWireType(f.typ).WtString?
  }

  predicate FitAll(t: Type, vs: seq<Value>) {
    forall i {:trigger Fits(t, vs[i])} :: 0 <= i < |vs| ==> Fits(t, vs[i])
  }

  /** Every field is declared by the message it stands in. */
  ghost predicate Declared(descs: Descs, m: nat, items: seq<Item>)
    decreases items, 1
  {
    forall i {:trigger DeclaredItem(descs, m, items[i])} :: 0 <= i < |items| ==> DeclaredItem(descs, m, items[i])
  }

  ghost predicate DeclaredItem(descs: Descs, m: nat, it: Item)
    decreases it, 0
  {
    && it.f in FieldsOf(descs, m)
    && (it.Nested? ==> Declared(descs, it.f.msg, it.body))
  }

  /** How many frames a tree needs below the one it is encoded in. */
  ghost function Height(items: seq<Item>): nat
    decreases items, 1
  {
    if items == [] then 0 else Max(HeightItem(items[0]), Height(items[1..]))
  }

  ghost function HeightItem(it: Item): nat
    decreases it, 0
  {
    match it
    case Single(_, _) => 0
    case Packed(_, _) => 1
    case Nested(_, body) => 1 + Height(body)
  }

  function Max(a: nat, b: nat): nat { if a < b then b else a }

  // ---- encoding ----

  /** `wire_type | (number << 3)`, a 32-bit quantity. */
  function Key(f: Field, wt: WireType): (k: u32) {
    (f.number * 8) % TWO32 + WireTypeCode(wt)
  }

  function EncWire(w: WireValue): (s: seq<byte>) {
    match w
    case WVarint(v) => Varint(v)
    case W64(v) => Le(v, 8)
    case WString(s) => Varint(|s|) + s
    case W32(v) => Le(v, 4)
  }

  function Record(f: Field, w: WireValue): seq<byte> {
    Varint(Key(f, WireTypeOf(w))) + EncWire(w)
  }

  function EncValues(t: Type, vs: seq<Value>): (s: seq<byte>)
    requires FitAll(t, vs)
  {
    if vs == [] then [] else EncWire(ToWire(t, vs[0])) + EncValues(t, vs[1..])
  }

  ghost function EncItem(it: Item): (s: seq<byte>)
    requires ShapedItem(it)
    decreases it, 0
  {
    match it
    case Single(f, v) => Record(f, ToWire(f.typ, v))
    case Packed(f, vs) => Record(f, WString(EncValues(f.typ, vs)))
    case Nested(f, body) => Record(f, WString(Enc(body)))
  }

  /** The encoding of a message: its records one after the other. */
  ghost function Enc(items: seq<Item>): (s: seq<byte>)
    requires Shaped(items)
    decreases items, 1
  {
    if items == [] then [] else EncItem(items[0]) + Enc(items[1..])
  }

  lemma {:induction false} EncConcat(a: seq<Item>, b: seq<Item>)
    requires Shaped(a) && Shaped(b)
    ensures Shaped(a + b) && Enc(a + b) == Enc(a) + Enc(b)
    decreases |a|
  {
    hide EncItem, ShapedItem;
    ShapedConcat(a, b);
    if a == [] {
      assert a + b == b;
    } else {
      EncConcat(a[1..], b);
      assert (a + b)[1..] == a[1..] + b && (a + b)[0] == a[0];
    }
  }

  lemma ShapedConcat(a: seq<Item>, b: seq<Item>)
    requires Shaped(a) && Shaped(b)
    ensures Shaped(a + b)
  {
    forall i | 0 <= i < |a + b| ensures ShapedItem((a + b)[i]) {
      if i < |a| { assert (a + b)[i] == a[i]; } else { assert (a + b)[i] == b[i - |a|]; }
    }
  }

  lemma {:induction false} EncValuesConcat(t: Type, a: seq<Value>, b: seq<Value>)
    requires FitAll(t, a) && FitAll(t, b)
    ensures FitAll(t, a + b) && EncValues(t, a + b) == EncValues(t, a) + EncValues(t, b)
    decreases |a|
  {
    hide ToWire, EncWire, Fits;
    FitAllConcat(t, a, b);
    if a == [] {
      assert a + b == b;
    } else {
      EncValuesConcat(t, a[1..], b);
      assert (a + b)[1..] == a[1..] + b && (a + b)[0] == a[0];
    }
  }

  lemma FitAllConcat(t: Type, a: seq<Value>, b: seq<Value>)
    requires FitAll(t, a) && FitAll(t, b)
    ensures FitAll(t, a + b)
  {
    hide Fits;
    forall i | 0 <= i < |a + b| ensures Fits(t, (a + b)[i]) {
      if i < |a| { assert (a + b)[i] == a[i]; } else { assert (a + b)[i] == b[i - |a|]; }
    }
  }

  // ---- the reserve ----

  /** Key and length always fit the reserve when the body is shorter than 2^35 bytes. */
  lemma HeaderFitsReserve(f: Field, len: nat)
    requires len < TWO35
    ensures |Varint(Key(f, WtString))| + |Varint(len)| <= RESERVE
  {
    VarintBounds(Key(f, WtString));
    VarintBounds(len);
  }

  /** The bound is sharp: from 2^35 bytes on, the header of any field numbered 2^25 or above overruns the reserve. */
  lemma ReserveIsTight(f: Field, len: nat)
    requires 0x200_0000 <= f.number < 0x2000_0000
    ensures |Varint(Key(f, WtString))| + |Varint(len)| <= RESERVE <==> len < TWO35
  {
    assert Key(f, WtString) == f.number * 8 + 2;
    VarintLength(Key(f, WtString), 4);
    assert Pow128(4) == 0x1000_0000 by { assert Pow128(2) == 0x4000; }
    VarintBounds(Key(f, WtString));
    VarintBounds(len);
  }

  // ---- room ----

  /** The room an encoder that reserves in front of each body needs beyond its position: the highest byte it
      ever writes, counted from there. */
  ghost function Need(items: seq<Item>): nat
    requires Shaped(items)
    decreases items, 1
  {
    if items == [] then 0
    else Max(NeedItem(items[0]), |EncItem(items[0])| + Need(items[1..]))
  }

  ghost function NeedItem(it: Item): nat
    requires ShapedItem(it)
    decreases it, 0
  {
    match it
    case Single(f, v) => |EncItem(it)|
    case Packed(f, vs) => RESERVE + |EncValues(f.typ, vs)|
    case Nested(f, body) => RESERVE + Need(body)
  }

  /** What the dry run of the two-pass encoder returns: reserves and over-long nested lengths are added up
      at every level. */
  ghost function Dry(items: seq<Item>): nat
    requires Shaped(items)
    decreases items, 1
  {
    if items == [] then 0 else DryItem(items[0]) + Dry(items[1..])
  }

  ghost function DryItem(it: Item): nat
    requires ShapedItem(it)
    decreases it, 0
  {
    match it
    case Single(f, v) => |EncItem(it)|
    case Packed(f, vs) => RESERVE + |EncItem(it)|
    case Nested(f, body) => RESERVE + |Varint(Key(f, WtString))| + |Varint(Dry(body))| + Dry(body)
  }

  /** The dry run's answer is enough: it is at least the encoded length and at least the highest byte the
      second pass writes, including bytes that are later moved left. */
  lemma {:induction false} DrySuffices(items: seq<Item>)
    requires Shaped(items)
    ensures |Enc(items)| <= Dry(items)
    ensures Need(items) <= Dry(items)
    decreases items, 1
  {
    if items != [] {
      DryItemSuffices(items[0]);
      DrySuffices(items[1..]);
    }
  }

  lemma {:induction false} DryItemSuffices(it: Item)
    requires ShapedItem(it)
    ensures |EncItem(it)| <= DryItem(it)
    ensures NeedItem(it) <= DryItem(it)
    decreases it, 0
  {
    if it.Nested? {
      DrySuffices(it.body);
      VarintMonotone(|Enc(it.body)|, Dry(it.body));
    }
  }

  /** The final bytes lie below the highest byte written. */
  lemma {:induction false} EncWithinNeed(items: seq<Item>)
    requires Shaped(items)
    ensures |Enc(items)| <= Need(items)
    decreases |items|
  {
    hide EncItem, NeedItem, ShapedItem;
    if items != [] {
      EncWithinNeed(items[1..]);
    }
  }

  /** The need of two parts, one after the other. */
  lemma {:induction false} NeedConcat(a: seq<Item>, b: seq<Item>)
    requires Shaped(a) && Shaped(b)
    ensures Shaped(a + b) && Need(a + b) == Max(Need(a), |Enc(a)| + Need(b))
    decreases |a|
  {
    hide EncItem, NeedItem, ShapedItem;
    ShapedConcat(a, b);
    if a == [] {
      assert a + b == b;
    } else {
      NeedConcat(a[1..], b);
      assert (a + b)[1..] == a[1..] + b && (a + b)[0] == a[0];
    }
  }

  /** The dry run adds up part by part. */
  lemma {:induction false} DryConcat(a: seq<Item>, b: seq<Item>)
    requires Shaped(a) && Shaped(b)
    ensures Shaped(a + b) && Dry(a + b) == Dry(a) + Dry(b)
    decreases |a|
  {
    hide EncItem, DryItem, ShapedItem;
    ShapedConcat(a, b);
    if a == [] {
      assert a + b == b;
    } else {
      DryConcat(a[1..], b);
      assert (a + b)[1..] == a[1..] + b && (a + b)[0] == a[0];
    }
  }
}
