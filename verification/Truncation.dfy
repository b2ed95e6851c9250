/** Messages that are cut off: what the decoder makes of every prefix of an encoding. */
module Truncation {
  import opened Wire
  import opened Schema
  import opened Scalars
  import opened Format
  import opened Parser
  import opened RoundTrip

  /** The wire value of a record. */
  ghost function ItemWire(it: Item): (w: WireValue)
    requires ShapedItem(it) && |EncItem(it)| < TWO64
    ensures EncItem(it) == Record(it.f, w)
    ensures w.WString? ==> |w.s| < TWO64
  {
    BodyShorter(it);
    match it
    case Single(f, v) => ToWire(f.typ, v)
    case Packed(f, vs) => WString(EncValues(f.typ, vs))
    case Nested(f, body) => WString(Enc(body))
  }

  /** How decoding ends when a record breaks off after `part` of its bytes: right behind the key of a varint or of a
      length the source looks at a byte that is not there, anywhere else it reports the end of the buffer. */
  function StatusOfPart(f: Field, w: WireValue, part: nat): Status {
    if part == 0 then Done
    else if part == |Varint(Key(f, WireTypeOf(w)))| && (w.WVarint? || w.WString?) then PastEnd
    else Truncated
  }

  lemma WireCut(w: WireValue, t: nat)
    requires t < |EncWire(w)| && (w.WString? ==> |w.s| < TWO64)
    ensures ReadWire(WireTypeCode(WireTypeOf(w)), EncWire(w)[..t])
            == Stop(if t == 0 && (w.WVarint? || w.WString?) then PastEnd else Truncated)
  {
    match w
    case WVarint(v) => if t > 0 { VarintTruncated(v, t); }
    case W64(_) =>
    case W32(_) =>
    case WString(s) => if t > 0 { StringCut(s, t); }
  }

  lemma StringCut(s: seq<byte>, t: nat)
    requires |s| < TWO64 && 0 < t < |Varint(|s|)| + |s|
    ensures ReadWire(2, (Varint(|s|) + s)[..t]) == Stop(Truncated)
  {
    var n := |Varint(|s|)|;
    hide Varint, ReadVarint;
    if t < n {
      assert (Varint(|s|) + s)[..t] == Varint(|s|)[..t];
      VarintTruncated(|s|, t);
    } else {
      assert (Varint(|s|) + s)[..t] == Varint(|s|) + s[..t - n];
      VarintRoundTrip(|s|, s[..t - n]);
    }
  }

  /** A record that breaks off. */
  lemma RecordCut(descs: Descs, m: nat, f: Field, w: WireValue, part: nat, last: Option<Field>, keep: bool)
    requires 0 < part < |Record(f, w)| && (w.WString? ==> |w.s| < TWO64) && f.number < 0x2000_0000
    ensures ReadField(descs, m, Record(f, w)[..part], last, keep) == Stopped(StatusOfPart(f, w, part))
  {
    hide ReadWire, ReadVarint, Interpret, EncWire, Lookup, Key, Varint;
    var wt := WireTypeOf(w);
    var key := Varint(Key(f, wt));
    if part < |key| {
      assert Record(f, w)[..part] == key[..part];
      VarintTruncated(Key(f, wt), part);
    } else {
      var t := part - |key|;
      assert Record(f, w)[..part] == key + EncWire(w)[..t];
      VarintRoundTrip(Key(f, wt), EncWire(w)[..t]);
      FrontDropped(key, EncWire(w)[..t]);
      KeyParts(f, wt);
      WireCut(w, t);
    }
  }

  /** Where a cut falls: behind `whole` items and `part` bytes of the next. */
  datatype Cut = Cut(whole: nat, part: nat)

  ghost function CutAt(items: seq<Item>, k: nat): (c: Cut)
    requires Shaped(items) && k <= |Enc(items)|
    ensures c.whole <= |items| && k == |Enc(items[..c.whole])| + c.part
    ensures if c.whole == |items| then c.part == 0 else c.part < |EncItem(items[c.whole])|
    decreases |items|
  {
    if items == [] then Cut(0, 0)
    else if k < |EncItem(items[0])| then
      assert items[..0] == [];
      Cut(0, k)
    else
      var c := CutAt(items[1..], k - |EncItem(items[0])|);
      assert items[..c.whole + 1][1..] == items[1..][..c.whole];
      Cut(c.whole + 1, c.part)
  }

  /** How decoding a cut encoding ends. */
  ghost function StatusOfCut(items: seq<Item>, k: nat): Status
    requires Shaped(items) && k <= |Enc(items)| < TWO64
  {
    var c := CutAt(items, k);
    if c.part == 0 then Done
    else
      ItemShorter(items, c.whole);
      StatusOfPart(items[c.whole].f, ItemWire(items[c.whole]), c.part)
  }

  lemma {:induction false} ItemShorter(items: seq<Item>, i: nat)
    requires Shaped(items) && i < |items|
    ensures ShapedItem(items[i]) && |EncItem(items[i])| <= |Enc(items)|
    decreases i
  {
    hide EncItem, ShapedItem;
    if i > 0 { ItemShorter(items[1..], i - 1); }
  }

  /** Decoding the fields that a cut leaves. */
  lemma {:induction false} FieldsCut(descs: Descs, root: nat, m: nat, items: seq<Item>, k: nat, last: Option<Field>,
                                     depth: nat, keep: bool)
    requires NumbersOk(descs) && Shaped(items) && Declared(descs, m, items)
    requires depth + Height(items) <= MAX_DEPTH && k <= |Enc(items)| < TWO64
    ensures var before := items[..CutAt(items, k).whole];
            var p := ParseFields(descs, root, m, Enc(items)[..k], last, depth, keep);
            p.events == Events(root, m, depth, before) && p.status == StatusOfCut(items, k)
    decreases |items|
  {
    hide ParseFields, Enc, EncItem, Events, ItemEvents, Height, HeightItem, Shaped, ShapedItem, Declared, DeclaredItem,
         StatusOfCut, CutAt;
    if items == [] {
      NothingCut(descs, root, m, k, last, depth, keep);
    } else {
      var it, rest := items[0], items[1..];
      PartsOf(descs, m, items);
      ItemShorter(items, 0);
      var n := |EncItem(it)|;
      if k < n {
        FirstCut(descs, root, m, items, k, last, depth, keep);
      } else {
        LaterCut(root, m, depth, items, k);
        FieldsCut(descs, root, m, rest, k - n, LastOfItem(it), depth, keep);
        ItemRoundTrip(descs, root, m, it, Enc(rest)[..k - n], last, depth, keep,
                      ParseFields(descs, root, m, Enc(rest)[..k - n], LastOfItem(it), depth, keep));
      }
    }
  }

  lemma NothingCut(descs: Descs, root: nat, m: nat, k: nat, last: Option<Field>, depth: nat, keep: bool)
    requires k <= |Enc([])|
    ensures ParseFields(descs, root, m, Enc([])[..k], last, depth, keep).events
            == Events(root, m, depth, [][..CutAt([], k).whole])
    ensures ParseFields(descs, root, m, Enc([])[..k], last, depth, keep).status == StatusOfCut([], k)
  {
    assert Enc([])[..k] == [];
  }

  lemma PartsOf(descs: Descs, m: nat, items: seq<Item>)
    requires items != [] && Shaped(items) && Declared(descs, m, items)
    ensures ShapedItem(items[0]) && Shaped(items[1..]) && DeclaredItem(descs, m, items[0]) && Declared(descs, m, items[1..])
    ensures Enc(items) == EncItem(items[0]) + Enc(items[1..])
    ensures HeightItem(items[0]) <= Height(items) && Height(items[1..]) <= Height(items)
  {
  }

  /** A cut behind the first item is a cut of the others. */
  lemma LaterCut(root: nat, m: nat, depth: nat, items: seq<Item>, k: nat)
    requires items != [] && Shaped(items) && k <= |Enc(items)| < TWO64
    requires ShapedItem(items[0]) && Shaped(items[1..]) && Enc(items) == EncItem(items[0]) + Enc(items[1..])
    requires |EncItem(items[0])| <= k
    ensures var rest, n := items[1..], |EncItem(items[0])|;
            && StatusOfCut(items, k) == StatusOfCut(rest, k - n)
            && Enc(items)[..k] == EncItem(items[0]) + Enc(rest)[..k - n]
            && Events(root, m, depth, items[..CutAt(items, k).whole])
               == ItemEvents(root, m, depth, items[0]) + Events(root, m, depth, rest[..CutAt(rest, k - n).whole])
  {
    hide EncItem, Enc, ItemEvents, ShapedItem, Shaped, StatusOfPart, ItemWire;
    var rest := items[1..];
    var w := CutAt(rest, k - |EncItem(items[0])|).whole;
    assert items[..w + 1][0] == items[0] && items[..w + 1][1..] == rest[..w];
  }

  lemma FirstCut(descs: Descs, root: nat, m: nat, items: seq<Item>, k: nat, last: Option<Field>, depth: nat, keep: bool)
    requires NumbersOk(descs) && Shaped(items) && Declared(descs, m, items) && items != []
    requires ShapedItem(items[0]) && k < |EncItem(items[0])| <= |Enc(items)| < TWO64
    ensures var p := ParseFields(descs, root, m, Enc(items)[..k], last, depth, keep);
            p.events == Events(root, m, depth, items[..CutAt(items, k).whole]) && p.status == StatusOfCut(items, k)
  {
    hide EncItem, Interpret, ReadField, ShapedItem;
    var it := items[0];
    assert DeclaredItem(descs, m, it);
    assert Enc(items)[..k] == EncItem(it)[..k];
    assert items[..0] == [];
    if k > 0 {
      hide Record;
      RecordCut(descs, m, it.f, ItemWire(it), k, last, keep);
    }
  }

  /** Decoding any prefix of the encoding of any well-typed tree. It succeeds exactly at the boundaries between the
      outermost records, with the events of the whole items before it. Right behind the key of a varint or of a
      length the source reads past the end. Everywhere else it reports the end of the buffer, after the events of
      the whole items. */
  lemma CutMessage(descs: Descs, m: nat, items: seq<Item>, k: nat, keep: bool)
    requires NumbersOk(descs) && Shaped(items) && Declared(descs, m, items)
    requires Height(items) < MAX_DEPTH && k <= |Enc(items)| < TWO64
    ensures var p, before := Parse(descs, m, Enc(items)[..k], keep), items[..CutAt(items, k).whole];
            && p.status == StatusOfCut(items, k)
            && p.events == if p.status.Done? then MessageEvents(m, before)
                           else [MsgStart(m, 1, false)] + Events(m, m, 1, before)
  {
    hide ParseFields, StatusOfCut, Events, CutAt;
    FieldsCut(descs, m, m, items, k, None, 1, keep);
  }

  /** The shortest message that ends right behind a key. */
  lemma KeyAlone(f: Field)
    requires f == Field(0, 1, UInt32, Optional, false, 0, "a")
    ensures Parse([MsgDesc([f])], 0, [0x08], true) == Parsed([MsgStart(0, 1, false)], PastEnd, None)
  {
    assert ReadVarint([0x08]) == Got(8, 1) && [0x08][1..] == [];
    assert ReadField([MsgDesc([f])], 0, [0x08], None, true) == Stopped(PastEnd);
  }
}
