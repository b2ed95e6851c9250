/** Every message the decoder accepts is a tree, whoever encoded it. */
module Accepted {
  import opened Wire
  import opened Schema
  import opened Scalars
  import opened Format
  import opened Parser
  import opened RoundTrip
  import opened UnknownFields
  import opened PyObjects
  import DictDecoder
  import StructDecoder

  /** The elements of a packed field. */
  lemma {:induction false} ElementsFound(m: nat, f: Field, s: seq<byte>) returns (vs: seq<Value>)
    requires ParsePacked(m, f, s).status.Done?
    ensures ParsePacked(m, f, s).events == ElementEvents(m, f, vs)
    ensures FitAll(f.typ, vs) && (vs != [] ==> !FieldWireType(f.typ).WtString?)
    decreases |s|
  {
    hide ReadWire, FromWire, Fits;
    vs := [];
    if s != [] {
      var r := ReadWire(WireTypeCode(FieldWireType(f.typ)), s);
      var rest := ElementsFound(m, f, s[r.used..]);
      var v := FromWire(f.typ, r.w);
      vs := [v] + rest;
      FitAllConcat(f.typ, [v], rest);
      assert vs[1..] == rest;
    }
  }

  /** What a field is read as. */
  lemma FieldTyped(descs: Descs, m: nat, s: seq<byte>, last: Option<Field>, keep: bool)
    requires s != []
    ensures var h := ReadField(descs, m, s, last, keep);
            && (h.Scalar? ==> TypedItem(Single(h.f, h.v)))
            && (h.Body? ==> h.f.typ.Message? && !IsPackedRepeated(h.f))
            && (!keep && (h.Scalar? || h.PackedBody? || h.Body?) ==> h.f in FieldsOf(descs, m))
  {
    hide FromWire, Fits, ReadWire;
  }

  lemma InFront(descs: Descs, m: nat, it: Item, items: seq<Item>, root: nat, depth: nat)
    requires TypedItem(it) && Typed(items)
    ensures Typed([it] + items)
    ensures DeclaredItem(descs, m, it) && Declared(descs, m, items) ==> Declared(descs, m, [it] + items)
    ensures Events(root, m, depth, [it] + items) == ItemEvents(root, m, depth, it) + Events(root, m, depth, items)
  {
    hide TypedItem, DeclaredItem, ItemEvents;
    var all := [it] + items;
    assert all[0] == it && all[1..] == items;
    forall i | 0 <= i < |all| ensures TypedItem(all[i]) { if i > 0 { assert all[i] == items[i - 1]; } }
    if DeclaredItem(descs, m, it) && Declared(descs, m, items) {
      forall i | 0 <= i < |all| ensures DeclaredItem(descs, m, all[i]) { if i > 0 { assert all[i] == items[i - 1]; } }
    }
  }

  lemma Nothing(descs: Descs, m: nat, root: nat, depth: nat)
    ensures Typed([]) && Declared(descs, m, []) && Events(root, m, depth, []) == []
  {
  }

  /** The tree of a message's fields. A decoder that skips undeclared fields finds declared ones only. */
  lemma {:induction false} FieldsFound(descs: Descs, root: nat, m: nat, s: seq<byte>, last: Option<Field>, depth: nat, keep: bool)
    returns (items: seq<Item>)
    requires ParseFields(descs, root, m, s, last, depth, keep).status.Done?
    ensures Typed(items) && (!keep ==> Declared(descs, m, items))
    ensures ParseFields(descs, root, m, s, last, depth, keep).events == Events(root, m, depth, items)
    decreases |s|
  {
    hide ReadField, ParsePacked, Typed, TypedItem, Declared, DeclaredItem, Events, ItemEvents, Framed, ParseFields;
    Nothing(descs, m, root, depth);
    items := [];
    NothingParsed(descs, root, m, last, depth, keep);
    if s != [] {
      FieldTyped(descs, m, s, last, keep);
      FieldParsed(descs, root, m, s, last, depth, keep);
      match ReadField(descs, m, s, last, keep)
      case Stopped(_) =>
      case Skipped(k) => items := FieldsFound(descs, root, m, s[k..], last, depth, keep);
      case Scalar(f, v, k) =>
        var rest := FieldsFound(descs, root, m, s[k..], Some(f), depth, keep);
        items := ScalarFound(descs, root, m, depth, f, v, rest);
      case PackedBody(f, body, k) =>
        var p := ParsePacked(m, f, body);
        FramedDoneParts(m, depth + 1, true, p);
        var vs := ElementsFound(m, f, body);
        var rest := FieldsFound(descs, root, m, s[k..], Some(f), depth, keep);
        items := PackedFound(descs, root, m, depth, f, vs, p, rest);
      case Body(f, body, k) =>
        var p := ParseFields(descs, root, f.msg, body, Some(f), depth + 1, keep);
        FramedDoneParts(f.msg, depth + 1, false, p);
        var inner := FieldsFound(descs, root, f.msg, body, Some(f), depth + 1, keep);
        var rest := FieldsFound(descs, root, m, s[k..], p.last, depth, keep);
        items := NestedFound(descs, root, m, depth, f, inner, p, rest);
    }
  }

  lemma NothingParsed(descs: Descs, root: nat, m: nat, last: Option<Field>, depth: nat, keep: bool)
    ensures ParseFields(descs, root, m, [], last, depth, keep).events == []
  {
  }

  /** The first field of a message that is accepted, and what follows it. */
  lemma FieldParsed(descs: Descs, root: nat, m: nat, s: seq<byte>, last: Option<Field>, depth: nat, keep: bool)
    requires s != [] && ParseFields(descs, root, m, s, last, depth, keep).status.Done?
    ensures var p := ParseFields(descs, root, m, s, last, depth, keep);
            match ReadField(descs, m, s, last, keep)
            case Stopped(_) => false
            case Skipped(k) => p == ParseFields(descs, root, m, s[k..], last, depth, keep)
            case Scalar(f, v, k) =>
              var q := ParseFields(descs, root, m, s[k..], Some(f), depth, keep);
              q.status.Done? && p.events == [FieldEvent(m, f, Some(v))] + q.events
            case PackedBody(f, body, k) =>
              var b, q := ParsePacked(m, f, body), ParseFields(descs, root, m, s[k..], Some(f), depth, keep);
              b.status.Done? && q.status.Done? && p.events == Framed(m, depth + 1, true, b).events + q.events
            case Body(f, body, k) =>
              var b := ParseFields(descs, root, f.msg, body, Some(f), depth + 1, keep);
              var q := ParseFields(descs, root, m, s[k..], b.last, depth, keep);
              && b.status.Done? && q.status.Done?
              && p.events == [FieldEvent(root, f, None)] + (Framed(f.msg, depth + 1, false, b).events + q.events)
  {
    hide ReadField, ParsePacked, Framed;
    match ReadField(descs, m, s, last, keep)
    case PackedBody(f, body, _) => FramedDoneParts(m, depth + 1, true, ParsePacked(m, f, body));
    case Body(f, body, _) =>
      FramedDoneParts(f.msg, depth + 1, false, ParseFields(descs, root, f.msg, body, Some(f), depth + 1, keep));
    case _ =>
  }

  lemma FramedDoneParts(m: nat, depth: nat, packed: bool, p: Parsed)
    ensures Framed(m, depth, packed, p).status == p.status
    ensures p.status.Done? ==>
              Framed(m, depth, packed, p).events == [MsgStart(m, depth, packed)] + (p.events + [MsgEnd(m, depth, packed)])
  {
  }

  lemma ScalarFound(descs: Descs, root: nat, m: nat, depth: nat, f: Field, v: Value, rest: seq<Item>) returns (items: seq<Item>)
    requires TypedItem(Single(f, v)) && Typed(rest)
    ensures Typed(items) && (f in FieldsOf(descs, m) && Declared(descs, m, rest) ==> Declared(descs, m, items))
    ensures Events(root, m, depth, items) == [FieldEvent(m, f, Some(v))] + Events(root, m, depth, rest)
  {
    items := [Single(f, v)] + rest;
    InFront(descs, m, Single(f, v), rest, root, depth);
  }

  lemma PackedFound(descs: Descs, root: nat, m: nat, depth: nat, f: Field, vs: seq<Value>, p: Parsed, rest: seq<Item>)
    returns (items: seq<Item>)
    requires IsPackedRepeated(f) && FitAll(f.typ, vs) && (vs != [] ==> !FieldWireType(f.typ).WtString?) && Typed(rest)
    requires p.events == ElementEvents(m, f, vs)
    ensures Typed(items) && (f in FieldsOf(descs, m) && Declared(descs, m, rest) ==> Declared(descs, m, items))
    ensures Events(root, m, depth, items)
            == [MsgStart(m, depth + 1, true)] + (p.events + [MsgEnd(m, depth + 1, true)]) + Events(root, m, depth, rest)
  {
    items := [Packed(f, vs)] + rest;
    InFront(descs, m, Packed(f, vs), rest, root, depth);
  }

  lemma NestedFound(descs: Descs, root: nat, m: nat, depth: nat, f: Field, body: seq<Item>, p: Parsed, rest: seq<Item>)
    returns (items: seq<Item>)
    requires f.typ.Message? && !IsPackedRepeated(f) && Typed(body) && Typed(rest)
    requires p.events == Events(root, f.msg, depth + 1, body)
    ensures Typed(items)
    ensures f in FieldsOf(descs, m) && Declared(descs, f.msg, body) && Declared(descs, m, rest) ==> Declared(descs, m, items)
    ensures Events(root, m, depth, items)
            == [FieldEvent(root, f, None)] + ([MsgStart(f.msg, depth + 1, false)] + (p.events + [MsgEnd(f.msg, depth + 1, false)])
                                              + Events(root, m, depth, rest))
  {
    items := [Nested(f, body)] + rest;
    InFront(descs, m, Nested(f, body), rest, root, depth);
  }

  /** For every byte string the decoder accepts there is a tree whose events are the handler calls made. */
  lemma AcceptedIsTree(descs: Descs, m: nat, s: seq<byte>, keep: bool) returns (items: seq<Item>)
    requires Parse(descs, m, s, keep).status.Done?
    ensures Typed(items) && (!keep ==> Declared(descs, m, items))
    ensures Parse(descs, m, s, keep).events == MessageEvents(m, items)
  {
    hide ParseFields, Events, Typed, Declared, Framed;
    var p := ParseFields(descs, m, m, s, None, 1, keep);
    FramedDoneParts(m, 1, false, p);
    items := FieldsFound(descs, m, m, s, None, 1, keep);
  }

  /** When no undeclared field follows a declared one, the tree has declared fields only. */
  lemma AcceptedIsDeclaredTree(descs: Descs, m: nat, s: seq<byte>) returns (items: seq<Item>)
    requires Parse(descs, m, s, true).status.Done? && Tidy(descs, m, s, false)
    ensures Typed(items) && Declared(descs, m, items)
    ensures Parse(descs, m, s, true).events == MessageEvents(m, items)
  {
    hide Parse, Tidy;
    SkipsUnknownFieldsExactlyWhenTidy(descs, m, s);
    items := AcceptedIsTree(descs, m, s, false);
  }

  /** Whatever bytes the dict decoder accepts, no undeclared field behind a declared one, it leaves an empty context
      stack and a normal dict: the merge of the tree that the bytes are. */
  lemma AcceptedIsMerged(descs: Descs, m: nat, s: seq<byte>) returns (items: seq<Item>, at: DictDecoder.Locs)
    requires DictDecoder.NamesOk(descs) && Parse(descs, m, s, true).status.Done? && Tidy(descs, m, s, false)
    ensures Parse(descs, m, s, true).events == MessageEvents(m, items)
    ensures var c := DictDecoder.Handle(DictDecoder.Fresh(), Parse(descs, m, s, true).events);
            && c.stack == [] && DictDecoder.Tree(c.store, c.next, at) && 0 in c.store
            && DictDecoder.Read(c.store, c.next, at, 0) == PyDict(DictDecoder.Merge(map[], items))
            && DictDecoder.Normal(descs, m, DictDecoder.Read(c.store, c.next, at, 0))
  {
    hide *;
    items := AcceptedIsDeclaredTree(descs, m, s);
    at := DictDecoder.TreeMerges(descs, m, items);
    DictDecoder.NothingNormal(descs, m);
    DictDecoder.MergeNormal(descs, m, map[], items);
  }

  /** Whatever bytes the struct decoder accepts: if the tree that they are fits its structs, every occurrence of a
      field ends up in its own element, and nothing else is written. */
  lemma AcceptedIsPlaced(descs: Descs, maps: StructDecoder.Maps, s: nat, base: nat, data: seq<byte>,
                         mem: StructDecoder.Memory) returns (items: seq<Item>)
    requires s < |maps| && Parse(descs, maps[s].msg, data, true).status.Done?
    ensures Typed(items) && Parse(descs, maps[s].msg, data, true).events == MessageEvents(maps[s].msg, items)
    ensures StructDecoder.Laid(maps) && StructDecoder.Mapped(maps, s, items)
            && StructDecoder.Counted(maps, s, [], items) && StructDecoder.ContiguousTree(items) ==>
              StructDecoder.InPlace(mem,
                                    StructDecoder.Run(maps, StructDecoder.Outermost(s, base, mem),
                                                      Parse(descs, maps[s].msg, data, true).events),
                                    StructDecoder.Placed(maps, s, base, [], items, false), base, base + maps[s].size)
  {
    hide *;
    items := AcceptedIsTree(descs, maps[s].msg, data, true);
    if StructDecoder.Laid(maps) && StructDecoder.Mapped(maps, s, items)
       && StructDecoder.Counted(maps, s, [], items) && StructDecoder.ContiguousTree(items) {
      StructDecoder.TreePlacement(maps, s, base, items, mem);
    }
  }
}
