/** Decoding into C structs (src/lwpb/utils/struct_decoder.c): handlers that write every value into the memory of
    the struct its message is mapped to. */
module StructDecoder {
  import opened Wire
  import opened Schema
  import opened Scalars
  import opened Format
  import opened Parser
  import opened RoundTrip
  import opened EventOrder
  import Decoder

  // ---- struct maps ----

  /** Where a field goes: its offset in the struct, the size of one element, and how many elements there is room
      for. A nested message's elements are structs with the map `sub`, of that map's size. */
  datatype MapField = MapField(f: Field, ofs: nat, len: nat, count: nat, sub: nat)
  datatype StructMap = StructMap(msg: nat, size: nat, fields: seq<MapField>)
  type Maps = seq<StructMap>

  function FieldsIn(maps: Maps, s: nat): seq<MapField> {
    if s < |maps| then maps[s].fields else []
  }

  function SizeOf(maps: Maps, s: nat): nat {
    if s < |maps| then maps[s].size else 0
  }

  function Stride(maps: Maps, mf: MapField): nat {
    if mf.f.typ.Message? then SizeOf(maps, mf.sub) else mf.len
  }

  /** The first entry for a field. */
  function Find(fields: seq<MapField>, f: Field): (r: Option<nat>)
    ensures r.Some? ==> r.value < |fields| && fields[r.value].f == f
    ensures r.None? ==> forall j :: 0 <= j < |fields| ==> fields[j].f != f
  {
    if fields == [] then None
    else if fields[0].f == f then Some(0)
    else match Find(fields[1..], f)
      case Some(j) => Some(j + 1)
      case None => None
  }

  /** Where the element `k` of the entry `j` of a struct at `base` is. */
  function Slot(maps: Maps, s: nat, base: nat, j: nat, k: nat): nat
    requires j < |FieldsIn(maps, s)|
  {
    var mf := FieldsIn(maps, s)[j];
    base + mf.ofs + Times(Stride(maps, mf), k)
  }

  function Times(size: nat, k: nat): nat {
    size * k
  }

  // ---- values in memory ----

  /** Memory is bytes at addresses; words are little-endian, negative numbers in two's complement. */
  type Memory = map<nat, byte>

  predicate Is64(t: Type) {
    t.Double? || t.Int64? || t.UInt64? || t.SInt64? || t.Fixed64? || t.SFixed64?
  }

  /** An element has the size of its C type, and a string's at least room for its terminator. */
  predicate LenOk(mf: MapField) {
    match mf.f.typ
    case String => mf.len >= 1
    case Bytes => true
    case Message => true
    case t => mf.len == if Is64(t) then 8 else 4
  }

  /** The bytes written for a value. */
  function Stored(mf: MapField, v: Value): (b: seq<byte>)
    requires LenOk(mf) && !mf.f.typ.Message? && Fits(mf.f.typ, v)
    ensures |b| <= mf.len
  {
    if mf.f.typ.String? then v.data[..if |v.data| < mf.len then |v.data| else mf.len - 1] + [0]
    else if mf.f.typ.Bytes? then v.data[..if |v.data| < mf.len then |v.data| else mf.len]
    else if Is64(mf.f.typ) then Le(ToU64(v.n), 8)
    else Le(ToU32(v.n), 4)
  }

  predicate Unsigned(t: Type) {
    t.Double? || t.Float? || t.UInt32? || t.Fixed32? || t.UInt64? || t.Fixed64?
  }

  /** Reading an element as its C type gives back the value. */
  lemma StoredNumber(mf: MapField, v: Value)
    requires LenOk(mf) && !mf.f.typ.Message? && Fits(mf.f.typ, v) && v.Num?
    ensures var x := UnLe(Stored(mf, v));
            v.n == if Unsigned(mf.f.typ) then x else if Is64(mf.f.typ) then ToS64(x) else ToS32(x)
  {
    hide UnLe, Le;
    if Is64(mf.f.typ) {
      Word64RoundTrip(v.n);
      if !Unsigned(mf.f.typ) { NarrowBack64(v.n); }
    } else {
      Word32RoundTrip(v.n);
      if !Unsigned(mf.f.typ) { NarrowBack32(v.n); }
    }
  }

  lemma Word64RoundTrip(n: int)
    ensures UnLe(Le(ToU64(n), 8)) == ToU64(n)
  {
    Pow256Widths();
    LeRoundTrip(ToU64(n), 8);
  }

  lemma Word32RoundTrip(n: int)
    ensures UnLe(Le(ToU32(n), 4)) == ToU32(n)
  {
    Pow256Widths();
    LeRoundTrip(ToU32(n), 4);
  }

  /** A string element is a NUL-terminated prefix of the string, cut off only where the element is full. */
  lemma StoredString(mf: MapField, v: Value)
    requires LenOk(mf) && mf.f.typ.String? && Fits(String, v)
    ensures var b := Stored(mf, v);
            && |b| >= 1 && b[|b| - 1] == 0 && b[..|b| - 1] <= v.data
            && (|b| - 1 == |v.data| || |b| == mf.len)
  {
  }

  /** A bytes element is a prefix of the value, cut off only where the element is full. */
  lemma StoredBytes(mf: MapField, v: Value)
    requires mf.f.typ.Bytes? && Fits(Bytes, v)
    ensures var b := Stored(mf, v); b <= v.data && (b == v.data || |b| == mf.len)
  {
  }

  /** A value written to an address. */
  datatype Write = Write(at: nat, bytes: seq<byte>)

  predicate Covers(w: Write, a: nat) {
    w.at <= a < w.at + |w.bytes|
  }

  function Poke(mem: Memory, w: Write): Memory {
    mem + map a: nat | w.at <= a < w.at + |w.bytes| && Covers(w, a) :: w.bytes[a - w.at]
  }

  function PokeAll(mem: Memory, ws: seq<Write>): Memory
    decreases |ws|
  {
    if ws == [] then mem else PokeAll(Poke(mem, ws[0]), ws[1..])
  }

  lemma {:induction false} PokeAllConcat(mem: Memory, a: seq<Write>, b: seq<Write>)
    ensures PokeAll(mem, a + b) == PokeAll(PokeAll(mem, a), b)
    decreases |a|
  {
    hide Poke;
    if a == [] {
      assert a + b == b;
    } else {
      assert (a + b)[0] == a[0] && (a + b)[1..] == a[1..] + b;
      PokeAllConcat(Poke(mem, a[0]), a[1..], b);
    }
  }

  // ---- the handlers ----

  /** A frame of the struct decoder: the struct being filled, the entry filled last, and the index of its next
      element. */
  datatype SFrame = SFrame(structMap: nat, base: nat, last: Option<nat>, index: nat)

  /** The decoder's memory, its depth, and the frames set up so far: the outermost is set up before decoding
      starts, at depth -1. */
  datatype SState = SState(mem: Memory, depth: int, frames: seq<SFrame>)

  /** What a handler call needs: a frame, an entry for the field, and for a message an entry just announced. */
  predicate Ready(maps: Maps, st: SState, e: Event) {
    && st.frames != []
    && var top := st.frames[|st.frames| - 1];
       match e
       case MsgStart(m, _, _) =>
         if st.depth == -1 then top.structMap < |maps| && maps[top.structMap].msg == m
         else
           && top.last.Some? && top.last.value < |FieldsIn(maps, top.structMap)|
           && var mf := FieldsIn(maps, top.structMap)[top.last.value];
              mf.sub < |maps| && maps[mf.sub].msg == m && mf.f.typ.Message?
       case MsgEnd(_, _, _) => st.depth >= 0
       case FieldEvent(_, f, v) =>
         && st.depth >= 0 && Find(FieldsIn(maps, top.structMap), f).Some?
         && var mf := FieldsIn(maps, top.structMap)[Find(FieldsIn(maps, top.structMap), f).value];
            LenOk(mf) && (v.Some? ==> !f.typ.Message? && Fits(f.typ, v.value))
  }

  function OnEvent(maps: Maps, st: SState, e: Event): SState
    requires Ready(maps, st, e)
  {
    var n := |st.frames| - 1;
    var top := st.frames[n];
    match e
    case MsgStart(_, _, _) =>
      if st.depth == -1 then st.(depth := 0)
      else
        var j := top.last.value;
        var frame := SFrame(FieldsIn(maps, top.structMap)[j].sub, Slot(maps, top.structMap, top.base, j, top.index), None, 0);
        SState(st.mem, st.depth + 1, st.frames[..n] + [top.(index := top.index + 1), frame])
    case MsgEnd(_, _, _) =>
      SState(st.mem, st.depth - 1, if n == 0 then st.frames else st.frames[..n])
    case FieldEvent(_, f, v) =>
      var j := Find(FieldsIn(maps, top.structMap), f).value;
      var k := if top.last == Some(j) then top.index else 0;
      if v.None? then st.(frames := st.frames[..n] + [top.(last := Some(j), index := k)])
      else
        var w := Write(Slot(maps, top.structMap, top.base, j, k), Stored(FieldsIn(maps, top.structMap)[j], v.value));
        SState(Poke(st.mem, w), st.depth, st.frames[..n] + [top.(last := Some(j), index := k + 1)])
  }

  /** A run of handler calls; none when one is not ready. */
  function Run(maps: Maps, st: SState, es: seq<Event>): (r: Option<SState>)
    decreases |es|
  {
    if es == [] then Some(st)
    else if Ready(maps, st, es[0]) then Run(maps, OnEvent(maps, st, es[0]), es[1..])
    else None
  }

  lemma {:induction false} RunConcat(maps: Maps, st: SState, a: seq<Event>, b: seq<Event>)
    ensures Run(maps, st, a + b) == var r := Run(maps, st, a); if r.Some? then Run(maps, r.value, b) else None
    decreases |a|
  {
    hide OnEvent, Ready;
    if a == [] {
      assert a + b == b;
    } else {
      assert (a + b)[0] == a[0] && (a + b)[1..] == a[1..] + b;
      if Ready(maps, st, a[0]) { RunConcat(maps, OnEvent(maps, st, a[0]), a[1..], b); }
    }
  }

  lemma RunOne(maps: Maps, st: SState, e: Event)
    requires Ready(maps, st, e)
    ensures Run(maps, st, [e]) == Some(OnEvent(maps, st, e))
  {
    hide OnEvent, Ready;
    assert [e][1..] == [];
    assert Run(maps, OnEvent(maps, st, e), []) == Some(OnEvent(maps, st, e));
  }

  /** The struct decoder's depth is always one less than the number of frames the decoder has open. */
  lemma {:induction false} DepthFollowsDecoder(maps: Maps, st: SState, fr: Frames, es: seq<Event>, k: nat)
    requires st.depth == |fr.open| - 1 && k <= |es|
    requires Run(maps, st, es).Some? && Follow(es, fr).Some?
    ensures var r, fr' := Run(maps, st, es[..k]), Follow(es[..k], fr);
            r.Some? && fr'.Some? && r.value.depth == |fr'.value.open| - 1
    decreases |es|
  {
    if k > 0 {
      assert es[..k][0] == es[0] && es[..k][1..] == es[1..][..k - 1];
      DepthOne(maps, st, fr, es[0]);
      hide OnEvent, Ready, FollowOne, Find, Slot, LenOk, Fits;
      DepthFollowsDecoder(maps, OnEvent(maps, st, es[0]), FollowOne(es[0], fr).value, es[1..], k - 1);
    }
  }

  lemma DepthOne(maps: Maps, st: SState, fr: Frames, e: Event)
    requires st.depth == |fr.open| - 1 && Ready(maps, st, e) && FollowOne(e, fr).Some?
    ensures OnEvent(maps, st, e).depth == |FollowOne(e, fr).value.open| - 1
  {
  }

  // ---- counting occurrences ----

  /** How often a field occurs. */
  function Occ(fs: seq<Field>, f: Field): nat {
    if fs == [] then 0 else Occ(fs[..|fs| - 1], f) + if fs[|fs| - 1] == f then 1 else 0
  }

  /** How often it occurs at the end, without another field in between. */
  function RunLength(fs: seq<Field>, f: Field): nat {
    if fs == [] || fs[|fs| - 1] != f then 0 else RunLength(fs[..|fs| - 1], f) + 1
  }

  /** The occurrences of every field come one right after the other. */
  predicate Contiguous(fs: seq<Field>) {
    forall i, j, k :: 0 <= i < j < k < |fs| && fs[i] == fs[k] ==> fs[j] == fs[i]
  }

  lemma {:induction false} RunIsAll(fs: seq<Field>, f: Field)
    ensures RunLength(fs, f) <= Occ(fs, f)
    ensures RunLength(fs, f) == Occ(fs, f) <==> forall i, j :: 0 <= i < j < |fs| && fs[i] == f ==> fs[j] == f
    decreases |fs|
  {
    if fs != [] {
      var n := |fs| - 1;
      RunIsAll(fs[..n], f);
      if fs[n] != f {
        OccursAt(fs[..n], f);
      }
    }
  }

  lemma {:induction false} OccursAt(fs: seq<Field>, f: Field)
    ensures Occ(fs, f) > 0 <==> exists i :: 0 <= i < |fs| && fs[i] == f
    decreases |fs|
  {
    if fs != [] {
      var n := |fs| - 1;
      OccursAt(fs[..n], f);
      if fs[n] == f {
      } else if i :| 0 <= i < |fs| && fs[i] == f {
        assert fs[..n][i] == f;
      }
    }
  }

  /** Counting elements from the last change of field is counting them from the first exactly when the
      occurrences of every field are contiguous. */
  lemma CountsExactlyWhenContiguous(fs: seq<Field>)
    ensures (forall i :: 0 <= i < |fs| ==> RunLength(fs[..i], fs[i]) == Occ(fs[..i], fs[i])) <==> Contiguous(fs)
  {
    forall i | 0 <= i < |fs|
      ensures RunLength(fs[..i], fs[i]) == Occ(fs[..i], fs[i]) <==>
              forall h, j :: 0 <= h < j < i && fs[h] == fs[i] ==> fs[j] == fs[i]
    {
      RunIsAll(fs[..i], fs[i]);
    }
  }

  // ---- what a message tree is written as ----

  function FieldsOfItems(items: seq<Item>): seq<Field> {
    seq(|items|, i requires 0 <= i < |items| => items[i].f)
  }

  /** Every field is mapped, every nested message to a struct of its kind, and no field is packed. */
  ghost predicate Mapped(maps: Maps, s: nat, items: seq<Item>)
    decreases items, 1
  {
    forall i {:trigger MappedItem(maps, s, items[i])} :: 0 <= i < |items| ==> MappedItem(maps, s, items[i])
  }

  ghost predicate MappedItem(maps: Maps, s: nat, it: Item)
    decreases it, 0
  {
    && !it.Packed? && Find(FieldsIn(maps, s), it.f).Some?
    && var mf := FieldsIn(maps, s)[Find(FieldsIn(maps, s), it.f).value];
       && LenOk(mf)
       && (it.Nested? ==> mf.sub < |maps| && maps[mf.sub].msg == it.f.msg && Mapped(maps, mf.sub, it.body))
  }

  /** Which element of its field's array the next occurrence is: counted from the last change of field, as the
      decoder counts (`asDecoded`), or from the first occurrence. */
  function Index(fs: seq<Field>, f: Field, asDecoded: bool): nat {
    if asDecoded then RunLength(fs, f) else Occ(fs, f)
  }

  /** The writes for a message's items into a struct, `fs` being the fields that came before them. */
  ghost function Placed(maps: Maps, s: nat, base: nat, fs: seq<Field>, items: seq<Item>, asDecoded: bool): seq<Write>
    requires Typed(items) && Mapped(maps, s, items)
    decreases items, 1
  {
    if items == [] then []
    else PlacedItem(maps, s, base, fs, items[0], asDecoded)
         + Placed(maps, s, base, fs + [items[0].f], items[1..], asDecoded)
  }

  ghost function PlacedItem(maps: Maps, s: nat, base: nat, fs: seq<Field>, it: Item, asDecoded: bool): seq<Write>
    requires TypedItem(it) && MappedItem(maps, s, it)
    decreases it, 0
  {
    var j := Find(FieldsIn(maps, s), it.f).value;
    var slot := Slot(maps, s, base, j, Index(fs, it.f, asDecoded));
    if it.Single? then [Write(slot, Stored(FieldsIn(maps, s)[j], it.v))]
    else Placed(maps, FieldsIn(maps, s)[j].sub, slot, [], it.body, asDecoded)
  }

  /** The frame of a struct after the fields `fs`. */
  function FrameAfter(maps: Maps, s: nat, base: nat, fs: seq<Field>): SFrame {
    if fs == [] then SFrame(s, base, None, 0)
    else SFrame(s, base, Find(FieldsIn(maps, s), fs[|fs| - 1]), RunLength(fs, fs[|fs| - 1]))
  }

  ghost predicate AllFound(maps: Maps, s: nat, fs: seq<Field>) {
    forall f :: f in fs ==> Find(FieldsIn(maps, s), f).Some?
  }

  lemma AlsoFound(maps: Maps, s: nat, fs: seq<Field>, f: Field)
    requires AllFound(maps, s, fs) && Find(FieldsIn(maps, s), f).Some?
    ensures AllFound(maps, s, fs + [f])
  {
  }

  /** The handlers write a message's items, counting as the decoder counts, and leave all other frames alone. */
  lemma {:induction false} RunItems(maps: Maps, s: nat, base: nat, fs: seq<Field>, items: seq<Item>, st: SState,
                                    outer: seq<SFrame>, root: nat, m: nat, depth: nat)
    requires Typed(items) && Mapped(maps, s, items) && AllFound(maps, s, fs)
    requires st.depth >= 0 && st.frames == outer + [FrameAfter(maps, s, base, fs)]
    ensures Run(maps, st, Events(root, m, depth, items))
            == Some(SState(PokeAll(st.mem, Placed(maps, s, base, fs, items, true)), st.depth,
                           outer + [FrameAfter(maps, s, base, fs + FieldsOfItems(items))]))
    decreases items, 1
  {
    FieldsOfFirst(fs, items);
    if items != [] {
      var it, rest := items[0], items[1..];
      FirstParts(maps, s, items);
      AlsoFound(maps, s, fs, it.f);
      hide ItemEvents, FrameAfter, TypedItem, MappedItem, PlacedItem, Typed, Mapped, FieldsOfItems, Find, Slot, AllFound;
      RunItem(maps, s, base, fs, it, st, outer, root, m, depth);
      var ws := PlacedItem(maps, s, base, fs, it, true);
      var st1 := SState(PokeAll(st.mem, ws), st.depth, outer + [FrameAfter(maps, s, base, fs + [it.f])]);
      RunConcat(maps, st, ItemEvents(root, m, depth, it), Events(root, m, depth, rest));
      RunItems(maps, s, base, fs + [it.f], rest, st1, outer, root, m, depth);
      PokeAllConcat(st.mem, ws, Placed(maps, s, base, fs + [it.f], rest, true));
    }
  }

  lemma FieldsOfFirst(fs: seq<Field>, items: seq<Item>)
    ensures if items == [] then fs + FieldsOfItems(items) == fs
            else fs + FieldsOfItems(items) == fs + [items[0].f] + FieldsOfItems(items[1..])
  {
  }

  lemma FirstParts(maps: Maps, s: nat, items: seq<Item>)
    requires items != [] && Typed(items) && Mapped(maps, s, items)
    ensures TypedItem(items[0]) && MappedItem(maps, s, items[0]) && Find(FieldsIn(maps, s), items[0].f).Some?
    ensures Typed(items[1..]) && Mapped(maps, s, items[1..])
  {
  }

  lemma {:induction false} RunItem(maps: Maps, s: nat, base: nat, fs: seq<Field>, it: Item, st: SState,
                                   outer: seq<SFrame>, root: nat, m: nat, depth: nat)
    requires TypedItem(it) && MappedItem(maps, s, it) && AllFound(maps, s, fs)
    requires st.depth >= 0 && st.frames == outer + [FrameAfter(maps, s, base, fs)]
    ensures Run(maps, st, ItemEvents(root, m, depth, it))
            == Some(SState(PokeAll(st.mem, PlacedItem(maps, s, base, fs, it, true)), st.depth,
                           outer + [FrameAfter(maps, s, base, fs + [it.f])]))
    decreases it, 0
  {
    var j := Find(FieldsIn(maps, s), it.f).value;
    var k := RunLength(fs, it.f);
    IndexIsRun(maps, s, base, fs, it.f);
    hide Run, Find, RunLength, Slot, Stored, Placed, PokeAll, Poke, Events, Fits, LenOk, Typed, Mapped, AllFound;
    match it
    case Single(f, v) => RunSingle(maps, s, base, fs, f, v, j, k, st, outer, m);
    case Nested(f, body) => RunNestedItem(maps, s, base, f, body, j, k, st, outer, root, depth);
  }

  lemma {:induction false} RunNestedItem(maps: Maps, s: nat, base: nat, f: Field, body: seq<Item>, j: nat, k: nat,
                                         st: SState, outer: seq<SFrame>, root: nat, depth: nat)
    requires Find(FieldsIn(maps, s), f) == Some(j) && f.typ.Message? && Typed(body)
    requires var mf := FieldsIn(maps, s)[j]; mf.sub < |maps| && maps[mf.sub].msg == f.msg && Mapped(maps, mf.sub, body)
                                             && LenOk(mf)
    requires st.depth >= 0 && st.frames != [] && outer == st.frames[..|st.frames| - 1]
    requires var top := st.frames[|st.frames| - 1];
             top.structMap == s && top.base == base && k == if top.last == Some(j) then top.index else 0
    ensures var mf, slot := FieldsIn(maps, s)[j], Slot(maps, s, base, j, k);
            Run(maps, st, ItemEvents(root, 0, depth, Nested(f, body)))
            == Some(SState(PokeAll(st.mem, Placed(maps, mf.sub, slot, [], body, true)), st.depth,
                           outer + [SFrame(s, base, Some(j), k + 1)]))
    decreases body, 2
  {
    hide Ready, OnEvent, Slot, Find, Run, Events, Typed, Mapped, Placed, PokeAll;
    var sub, slot := FieldsIn(maps, s)[j].sub, Slot(maps, s, base, j, k);
    var outer1 := outer + [SFrame(s, base, Some(j), k + 1)];
    var inner := SState(st.mem, st.depth + 1, outer1 + [FrameAfter(maps, sub, slot, [])]);
    RunItems(maps, sub, slot, [], body, inner, outer1, root, f.msg, depth + 1);
    var mem := PokeAll(st.mem, Placed(maps, sub, slot, [], body, true));
    RunNested(maps, s, base, f, j, k, st, outer, root, depth, Events(root, f.msg, depth + 1, body), mem,
              FrameAfter(maps, sub, slot, [] + FieldsOfItems(body)));
  }

  /** Announcing, starting and ending a nested message around its fields. */
  lemma RunNested(maps: Maps, s: nat, base: nat, f: Field, j: nat, k: nat, st: SState, outer: seq<SFrame>, root: nat,
                  depth: nat, es: seq<Event>, mem: Memory, last: SFrame)
    requires Find(FieldsIn(maps, s), f) == Some(j) && f.typ.Message?
    requires var mf := FieldsIn(maps, s)[j]; mf.sub < |maps| && maps[mf.sub].msg == f.msg
    requires st.depth >= 0 && st.frames != [] && outer == st.frames[..|st.frames| - 1]
    requires var top := st.frames[|st.frames| - 1];
             top.structMap == s && top.base == base && k == if top.last == Some(j) then top.index else 0
    requires var outer1 := outer + [SFrame(s, base, Some(j), k + 1)];
             var frame := SFrame(FieldsIn(maps, s)[j].sub, Slot(maps, s, base, j, k), None, 0);
             Run(maps, SState(st.mem, st.depth + 1, outer1 + [frame]), es)
             == Some(SState(mem, st.depth + 1, outer1 + [last]))
    ensures Run(maps, st, [FieldEvent(root, f, None)]
                          + ([MsgStart(f.msg, depth + 1, false)] + (es + [MsgEnd(f.msg, depth + 1, false)])))
            == Some(SState(mem, st.depth, outer + [SFrame(s, base, Some(j), k + 1)]))
  {
    var e, start, end := FieldEvent(root, f, None), MsgStart(f.msg, depth + 1, false), MsgEnd(f.msg, depth + 1, false);
    var outer1 := outer + [SFrame(s, base, Some(j), k + 1)];
    var frame := SFrame(FieldsIn(maps, s)[j].sub, Slot(maps, s, base, j, k), None, 0);
    var st1 := st.(frames := outer + [SFrame(s, base, Some(j), k)]);
    var st2 := SState(st.mem, st.depth + 1, outer1 + [frame]);
    var st3 := SState(mem, st.depth + 1, outer1 + [last]);
    Announced(maps, s, base, root, f, j, k, st, outer);
    Entered(maps, s, base, f, j, k, st1, outer, depth);
    Left(maps, st3, outer1, f.msg, depth + 1);
    hide *;
    RunOne(maps, st, e);
    RunOne(maps, st1, start);
    RunOne(maps, st3, end);
    RunConcat(maps, st, [e], [start] + (es + [end]));
    RunConcat(maps, st1, [start], es + [end]);
    RunConcat(maps, st2, es, [end]);
  }

  /** A nested message's entry is chosen when its field is announced. */
  lemma Announced(maps: Maps, s: nat, base: nat, root: nat, f: Field, j: nat, k: nat, st: SState, outer: seq<SFrame>)
    requires Find(FieldsIn(maps, s), f) == Some(j) && LenOk(FieldsIn(maps, s)[j])
    requires st.depth >= 0 && st.frames != [] && outer == st.frames[..|st.frames| - 1]
    requires var top := st.frames[|st.frames| - 1];
             top.structMap == s && top.base == base && k == if top.last == Some(j) then top.index else 0
    ensures var e := FieldEvent(root, f, None);
            Ready(maps, st, e) && OnEvent(maps, st, e) == st.(frames := outer + [SFrame(s, base, Some(j), k)])
  {
    hide Find, LenOk, Slot;
  }

  /** The struct chosen for a nested message is entered when the message starts. */
  lemma Entered(maps: Maps, s: nat, base: nat, f: Field, j: nat, k: nat, st: SState, outer: seq<SFrame>, depth: nat)
    requires Find(FieldsIn(maps, s), f) == Some(j) && f.typ.Message?
    requires var mf := FieldsIn(maps, s)[j]; mf.sub < |maps| && maps[mf.sub].msg == f.msg
    requires st.depth >= 0 && st.frames == outer + [SFrame(s, base, Some(j), k)]
    ensures var start := MsgStart(f.msg, depth + 1, false);
            var frame := SFrame(FieldsIn(maps, s)[j].sub, Slot(maps, s, base, j, k), None, 0);
            && Ready(maps, st, start)
            && OnEvent(maps, st, start)
               == SState(st.mem, st.depth + 1, outer + [SFrame(s, base, Some(j), k + 1)] + [frame])
  {
    hide Slot;
    var frame := SFrame(FieldsIn(maps, s)[j].sub, Slot(maps, s, base, j, k), None, 0);
    assert st.frames[..|outer|] == outer;
    assert outer + [SFrame(s, base, Some(j), k + 1), frame] == outer + [SFrame(s, base, Some(j), k + 1)] + [frame];
  }

  lemma Left(maps: Maps, st: SState, outer: seq<SFrame>, m: nat, depth: nat)
    requires st.depth > 0 && outer != [] && |st.frames| == |outer| + 1 && st.frames[..|outer|] == outer
    ensures var end := MsgEnd(m, depth, false);
            Ready(maps, st, end) && OnEvent(maps, st, end) == SState(st.mem, st.depth - 1, outer)
  {
  }

  lemma RunSingle(maps: Maps, s: nat, base: nat, fs: seq<Field>, f: Field, v: Value, j: nat, k: nat, st: SState,
                  outer: seq<SFrame>, m: nat)
    requires Find(FieldsIn(maps, s), f) == Some(j) && !f.typ.Message? && Fits(f.typ, v) && LenOk(FieldsIn(maps, s)[j])
    requires st.depth >= 0 && st.frames != [] && outer == st.frames[..|st.frames| - 1]
    requires var top := st.frames[|st.frames| - 1];
             top.structMap == s && top.base == base && k == if top.last == Some(j) then top.index else 0
    ensures var w := Write(Slot(maps, s, base, j, k), Stored(FieldsIn(maps, s)[j], v));
            Run(maps, st, [FieldEvent(m, f, Some(v))])
            == Some(SState(PokeAll(st.mem, [w]), st.depth, outer + [SFrame(s, base, Some(j), k + 1)]))
  {
    hide Run, PokeAll, Slot, Stored, Fits, LenOk, Find, Poke;
    RunOne(maps, st, FieldEvent(m, f, Some(v)));
    PokeOne(st.mem, Write(Slot(maps, s, base, j, k), Stored(FieldsIn(maps, s)[j], v)));
  }

  lemma PokeOne(mem: Memory, w: Write)
    ensures PokeAll(mem, [w]) == Poke(mem, w)
  {
    hide Poke;
    assert [w][1..] == [];
  }

  /** The frame's index is the length of the current run. */
  lemma IndexIsRun(maps: Maps, s: nat, base: nat, fs: seq<Field>, f: Field)
    requires AllFound(maps, s, fs)
    requires Find(FieldsIn(maps, s), f).Some?
    ensures var fr := FrameAfter(maps, s, base, fs);
            (if fr.last == Find(FieldsIn(maps, s), f) then fr.index else 0) == RunLength(fs, f)
    ensures FrameAfter(maps, s, base, fs + [f])
            == SFrame(s, base, Find(FieldsIn(maps, s), f), RunLength(fs, f) + 1)
  {
    assert (fs + [f])[..|fs|] == fs;
    if fs != [] {
      assert fs[|fs| - 1] in fs;
    }
  }

  // ---- where everything ends up ----

  /** A struct map describes real structs: entries lie inside the struct and apart from each other, every entry
      is for another field, and sizes suit the types. */
  ghost predicate Laid(maps: Maps) {
    forall s, j {:trigger FieldsIn(maps, s)[j]} :: 0 <= j < |FieldsIn(maps, s)| ==> LaidEntry(maps, s, j)
  }

  ghost predicate LaidEntry(maps: Maps, s: nat, j: nat)
    requires j < |FieldsIn(maps, s)|
  {
    var mf := FieldsIn(maps, s)[j];
    && LenOk(mf) && Find(FieldsIn(maps, s), mf.f) == Some(j)
    && mf.ofs + Times(Stride(maps, mf), mf.count) <= SizeOf(maps, s)
    && forall i {:trigger FieldsIn(maps, s)[i]} :: 0 <= i < |FieldsIn(maps, s)| && i != j ==>
         var o := FieldsIn(maps, s)[i];
         mf.ofs + Times(Stride(maps, mf), mf.count) <= o.ofs || o.ofs + Times(Stride(maps, o), o.count) <= mf.ofs
  }

  /** No field occurs more often than there is room for, `fs` being the fields that came before. */
  ghost predicate Counted(maps: Maps, s: nat, fs: seq<Field>, items: seq<Item>)
    requires Mapped(maps, s, items)
    decreases items, 1
  {
    items == [] ||
    (CountedItem(maps, s, fs, items[0]) && Counted(maps, s, fs + [items[0].f], items[1..]))
  }

  ghost predicate CountedItem(maps: Maps, s: nat, fs: seq<Field>, it: Item)
    requires MappedItem(maps, s, it)
    decreases it, 0
  {
    var mf := FieldsIn(maps, s)[Find(FieldsIn(maps, s), it.f).value];
    Occ(fs, it.f) < mf.count && (it.Nested? ==> Counted(maps, mf.sub, [], it.body))
  }

  /** The occurrences of every field are contiguous, at every level. */
  ghost predicate ContiguousTree(items: seq<Item>)
    decreases items, 1
  {
    && Contiguous(FieldsOfItems(items))
    && forall i {:trigger items[i]} :: 0 <= i < |items| && items[i].Nested? ==> ContiguousTree(items[i].body)
  }

  /** Below the outermost level. */
  ghost predicate ContiguousBodies(items: seq<Item>) {
    forall i {:trigger items[i]} :: 0 <= i < |items| && items[i].Nested? ==> ContiguousTree(items[i].body)
  }

  /** For contiguous occurrences the decoder's count is the number of the occurrence. */
  lemma {:induction false} PlacedAsDecoded(maps: Maps, s: nat, base: nat, fs: seq<Field>, items: seq<Item>)
    requires Typed(items) && Mapped(maps, s, items) && Contiguous(fs + FieldsOfItems(items))
    requires forall i {:trigger items[i]} :: 0 <= i < |items| && items[i].Nested? ==> ContiguousTree(items[i].body)
    ensures Placed(maps, s, base, fs, items, true) == Placed(maps, s, base, fs, items, false)
    decreases items
  {
    if items != [] {
      var it, rest := items[0], items[1..];
      FieldsOfFirst(fs, items);
      FirstParts(maps, s, items);
      var all := fs + FieldsOfItems(items);
      CountsExactlyWhenContiguous(all);
      assert all[|fs|] == it.f && all[..|fs|] == fs;
      if it.Nested? {
        var j := Find(FieldsIn(maps, s), it.f).value;
        var mf := FieldsIn(maps, s)[j];
        assert [] + FieldsOfItems(it.body) == FieldsOfItems(it.body);
        PlacedAsDecoded(maps, mf.sub, Slot(maps, s, base, j, Occ(fs, it.f)), [], it.body);
      }
      PlacedAsDecoded(maps, s, base, fs + [it.f], rest);
    }
  }

  predicate Apart(v: Write, w: Write) {
    v.at + |v.bytes| <= w.at || w.at + |w.bytes| <= v.at
  }

  predicate Inside(w: Write, lo: nat, hi: nat) {
    lo <= w.at && w.at + |w.bytes| <= hi
  }

  /** No write touches another's bytes. */
  ghost predicate Separate(ws: seq<Write>) {
    forall a, b :: 0 <= a < b < |ws| ==> Apart(ws[a], ws[b])
  }

  /** The bytes of a write are in memory. */
  ghost predicate Holds(mem: Memory, w: Write) {
    forall a: nat {:trigger Covers(w, a)} :: Covers(w, a) ==> a in mem && mem[a] == w.bytes[a - w.at]
  }

  predicate Untouched(ws: seq<Write>, a: nat) {
    forall b :: 0 <= b < |ws| ==> !Covers(ws[b], a)
  }

  /** No byte outside the writes has changed. */
  ghost predicate Unchanged(mem: Memory, mem': Memory, ws: seq<Write>) {
    forall a: nat {:trigger Untouched(ws, a)} :: Untouched(ws, a) ==>
      (a in mem <==> a in mem') && (a in mem ==> mem'[a] == mem[a])
  }

  lemma {:induction false} UntouchedStays(mem: Memory, ws: seq<Write>, a: nat)
    requires Untouched(ws, a)
    ensures var mem' := PokeAll(mem, ws); (a in mem <==> a in mem') && (a in mem ==> mem'[a] == mem[a])
    decreases |ws|
  {
    if ws != [] {
      assert !Covers(ws[0], a);
      forall b | 0 <= b < |ws| - 1 ensures !Covers(ws[1..][b], a) { assert ws[1..][b] == ws[b + 1]; }
      UntouchedStays(Poke(mem, ws[0]), ws[1..], a);
    }
  }

  lemma {:induction false} WriteStays(mem: Memory, ws: seq<Write>, b: nat, a: nat)
    requires Separate(ws) && b < |ws| && Covers(ws[b], a)
    ensures a in PokeAll(mem, ws) && PokeAll(mem, ws)[a] == ws[b].bytes[a - ws[b].at]
    decreases |ws|
  {
    if b == 0 {
      forall c | 0 <= c < |ws| - 1 ensures !Covers(ws[1..][c], a) {
        assert ws[1..][c] == ws[c + 1] && Apart(ws[0], ws[c + 1]);
      }
      UntouchedStays(Poke(mem, ws[0]), ws[1..], a);
    } else {
      assert ws[1..][b - 1] == ws[b];
      WriteStays(Poke(mem, ws[0]), ws[1..], b - 1, a);
    }
  }

  /** Writes apart from each other are all there at the end, and nothing else has changed. */
  lemma SeparateWritesStay(mem: Memory, ws: seq<Write>)
    requires Separate(ws)
    ensures forall b :: 0 <= b < |ws| ==> Holds(PokeAll(mem, ws), ws[b])
    ensures Unchanged(mem, PokeAll(mem, ws), ws)
  {
    hide Poke, Separate, Untouched;
    forall b, a: nat | 0 <= b < |ws| && Covers(ws[b], a)
      ensures a in PokeAll(mem, ws) && PokeAll(mem, ws)[a] == ws[b].bytes[a - ws[b].at]
    {
      WriteStays(mem, ws, b, a);
    }
    forall a: nat | Untouched(ws, a)
      ensures (a in mem <==> a in PokeAll(mem, ws)) && (a in mem ==> PokeAll(mem, ws)[a] == mem[a])
    {
      UntouchedStays(mem, ws, a);
    }
  }

  /** A write lies in a cell: in one of the elements not yet used, `fs` being the fields already placed. */
  ghost predicate InCell(maps: Maps, s: nat, base: nat, fs: seq<Field>, w: Write) {
    exists j, k: nat {:trigger CellHolds(maps, s, base, fs, w, j, k)} :: CellHolds(maps, s, base, fs, w, j, k)
  }

  ghost predicate CellHolds(maps: Maps, s: nat, base: nat, fs: seq<Field>, w: Write, j: int, k: nat) {
    && 0 <= j < |FieldsIn(maps, s)|
    && var mf := FieldsIn(maps, s)[j];
       && Occ(fs, mf.f) <= k < mf.count
       && Inside(w, Slot(maps, s, base, j, k), Slot(maps, s, base, j, k) + Stride(maps, mf))
  }

  ghost predicate AllInCells(maps: Maps, s: nat, base: nat, fs: seq<Field>, ws: seq<Write>) {
    forall b {:trigger ws[b]} :: 0 <= b < |ws| ==> InCell(maps, s, base, fs, ws[b])
  }

  ghost predicate AllInside(ws: seq<Write>, lo: nat, hi: nat) {
    forall b :: 0 <= b < |ws| ==> Inside(ws[b], lo, hi)
  }

  /** Multiples of a size are at least that size apart. */
  lemma {:induction false} MultiplesApart(size: nat, k: nat, l: nat)
    requires k < l
    ensures Times(size, k) + size <= Times(size, l)
    decreases l
  {
    TimesStep(size, l - 1);
    hide Times;
    if k < l - 1 { MultiplesApart(size, k, l - 1); }
  }

  lemma TimesStep(size: nat, k: nat)
    ensures Times(size, k + 1) == Times(size, k) + size
  {
  }

  lemma CellInStruct(maps: Maps, s: nat, base: nat, fs: seq<Field>, w: Write)
    requires Laid(maps) && InCell(maps, s, base, fs, w)
    ensures Inside(w, base, base + SizeOf(maps, s))
  {
    hide Times, Find, Occ;
    var j, k: nat :| CellHolds(maps, s, base, fs, w, j, k);
    assert LaidEntry(maps, s, j);
    var mf := FieldsIn(maps, s)[j];
    MultiplesApart(Stride(maps, mf), k, mf.count);
  }

  /** Of two different cells no byte is shared. */
  lemma CellsApart(maps: Maps, s: nat, base: nat, v: Write, w: Write, i: nat, h: nat, j: nat, k: nat)
    requires Laid(maps) && i < |FieldsIn(maps, s)| && j < |FieldsIn(maps, s)|
    requires h < FieldsIn(maps, s)[i].count && k < FieldsIn(maps, s)[j].count && (i != j || h < k)
    requires Inside(v, Slot(maps, s, base, i, h), Slot(maps, s, base, i, h) + Stride(maps, FieldsIn(maps, s)[i]))
    requires Inside(w, Slot(maps, s, base, j, k), Slot(maps, s, base, j, k) + Stride(maps, FieldsIn(maps, s)[j]))
    ensures Apart(v, w)
  {
    hide Times, Find, LenOk, Stride;
    assert LaidEntry(maps, s, i);
    var mi, mj := FieldsIn(maps, s)[i], FieldsIn(maps, s)[j];
    MultiplesApart(Stride(maps, mi), h, if i == j then k else mi.count);
    MultiplesApart(Stride(maps, mj), k, mj.count);
  }

  lemma SeparateConcat(v: seq<Write>, w: seq<Write>)
    requires Separate(v) && Separate(w)
    requires forall a, b :: 0 <= a < |v| && 0 <= b < |w| ==> Apart(v[a], w[b])
    ensures Separate(v + w)
  {
    var all := v + w;
    forall a, b | 0 <= a < b < |all| ensures Apart(all[a], all[b]) {
      if b < |v| {
        assert all[a] == v[a] && all[b] == v[b];
      } else {
        assert all[b] == w[b - |v|];
        if a < |v| { assert all[a] == v[a]; } else { assert all[a] == w[a - |v|]; }
      }
    }
  }

  /** The writes of a message's items, placed by occurrence, are apart and lie in unused cells of its struct. */
  lemma {:induction false} PlacedApart(maps: Maps, s: nat, base: nat, fs: seq<Field>, items: seq<Item>)
    requires Laid(maps) && Typed(items) && Mapped(maps, s, items) && Counted(maps, s, fs, items)
    ensures Separate(Placed(maps, s, base, fs, items, false))
    ensures AllInCells(maps, s, base, fs, Placed(maps, s, base, fs, items, false))
    decreases items, 1
  {
    hide Laid, Typed, Mapped, TypedItem, MappedItem, Counted, CountedItem, PlacedItem, InCell, Find, Separate,
         AllInside, AllInCells, Slot, Occ, Stride;
    if items == [] {
      NothingApart(maps, s, base, fs);
    } else {
      var it, rest := items[0], items[1..];
      FirstParts(maps, s, items);
      FirstCounted(maps, s, fs, items);
      PlacedApart(maps, s, base, fs + [it.f], rest);
      ItemApart(maps, s, base, fs, it);
      JoinApart(maps, s, base, fs, it.f, PlacedItem(maps, s, base, fs, it, false),
                Placed(maps, s, base, fs + [it.f], rest, false));
    }
  }

  lemma NothingApart(maps: Maps, s: nat, base: nat, fs: seq<Field>)
    ensures Separate([]) && AllInCells(maps, s, base, fs, [])
  {
  }

  lemma FirstCounted(maps: Maps, s: nat, fs: seq<Field>, items: seq<Item>)
    requires items != [] && Mapped(maps, s, items) && Mapped(maps, s, items[1..]) && Counted(maps, s, fs, items)
    ensures MappedItem(maps, s, items[0]) && CountedItem(maps, s, fs, items[0])
    ensures Counted(maps, s, fs + [items[0].f], items[1..])
  {
  }

  lemma {:induction false} ItemApart(maps: Maps, s: nat, base: nat, fs: seq<Field>, it: Item)
    requires Laid(maps) && TypedItem(it) && MappedItem(maps, s, it) && CountedItem(maps, s, fs, it)
    ensures Separate(PlacedItem(maps, s, base, fs, it, false))
    ensures var j := Find(FieldsIn(maps, s), it.f).value;
            && Occ(fs, it.f) < FieldsIn(maps, s)[j].count
            && AllInside(PlacedItem(maps, s, base, fs, it, false), Slot(maps, s, base, j, Occ(fs, it.f)),
                         Slot(maps, s, base, j, Occ(fs, it.f)) + Stride(maps, FieldsIn(maps, s)[j]))
    decreases it, 0
  {
    hide Laid, InCell;
    if it.Nested? {
      var j := Find(FieldsIn(maps, s), it.f).value;
      var sub, slot := FieldsIn(maps, s)[j].sub, Slot(maps, s, base, j, Occ(fs, it.f));
      PlacedApart(maps, sub, slot, [], it.body);
      var ws := Placed(maps, sub, slot, [], it.body, false);
      forall b | 0 <= b < |ws| ensures Inside(ws[b], slot, slot + SizeOf(maps, sub)) {
        CellInStruct(maps, sub, slot, [], ws[b]);
      }
    }
  }

  /** An item's writes in its own cell, followed by writes in cells that are then unused. */
  lemma JoinApart(maps: Maps, s: nat, base: nat, fs: seq<Field>, f: Field, v: seq<Write>, w: seq<Write>)
    requires Laid(maps) && Find(FieldsIn(maps, s), f).Some? && Separate(v) && Separate(w)
    requires var j := Find(FieldsIn(maps, s), f).value;
             && Occ(fs, f) < FieldsIn(maps, s)[j].count
             && AllInside(v, Slot(maps, s, base, j, Occ(fs, f)),
                          Slot(maps, s, base, j, Occ(fs, f)) + Stride(maps, FieldsIn(maps, s)[j]))
    requires AllInCells(maps, s, base, fs + [f], w)
    ensures Separate(v + w) && AllInCells(maps, s, base, fs, v + w)
  {
    hide Laid, Find, Slot, Stride, Occ;
    var i, h := Find(FieldsIn(maps, s), f).value, Occ(fs, f);
    forall a, b | 0 <= a < |v| && 0 <= b < |w| ensures Apart(v[a], w[b]) {
      var j, k: nat :| CellHolds(maps, s, base, fs + [f], w[b], j, k);
      LaterCell(maps, s, fs, f, j);
      CellsApart(maps, s, base, v[a], w[b], i, h, j, k);
    }
    SeparateConcat(v, w);
    forall b | 0 <= b < |v + w| ensures InCell(maps, s, base, fs, (v + w)[b]) {
      if b < |v| {
        assert (v + w)[b] == v[b];
        assert CellHolds(maps, s, base, fs, v[b], i, h);
      } else {
        var x := w[b - |v|];
        assert (v + w)[b] == x;
        var j, k: nat :| CellHolds(maps, s, base, fs + [f], x, j, k);
        LaterCell(maps, s, fs, f, j);
        assert CellHolds(maps, s, base, fs, x, j, k);
      }
    }
  }

  /** One more occurrence of a field uses one more of its cells and none of the others. */
  lemma LaterCell(maps: Maps, s: nat, fs: seq<Field>, f: Field, j: nat)
    requires Laid(maps) && j < |FieldsIn(maps, s)|
    ensures var g := FieldsIn(maps, s)[j].f;
            && Occ(fs + [f], g) == Occ(fs, g) + (if f == g then 1 else 0)
            && (f == g ==> Find(FieldsIn(maps, s), f) == Some(j))
  {
    assert LaidEntry(maps, s, j);
    assert (fs + [f])[..|fs|] == fs;
  }

  // ---- the whole way ----

  /** Where decoding into structs starts: in front of the outermost struct. */
  function Outermost(s: nat, base: nat, mem: Memory): SState {
    SState(mem, -1, [SFrame(s, base, None, 0)])
  }

  /** Everything is where its number says: the writes `ws` hold in the memory reached, they lie inside the outermost
      struct, and nothing else has changed. */
  ghost predicate InPlace(mem: Memory, r: Option<SState>, ws: seq<Write>, lo: nat, hi: nat) {
    && r.Some? && r.value.depth == -1
    && (forall b :: 0 <= b < |ws| ==> Holds(r.value.mem, ws[b]) && Inside(ws[b], lo, hi))
    && Unchanged(mem, r.value.mem, ws)
  }

  /** Decoding a message tree into structs. When every field is mapped and none is packed, the occurrences of every
      field are contiguous and no more than there is room for, then afterwards the k-th occurrence of every field is
      in the k-th element of its array, in the struct of its own message; nothing outside these elements has changed,
      and they all lie inside the outermost struct. */
  lemma TreePlacement(maps: Maps, s: nat, base: nat, items: seq<Item>, mem: Memory)
    requires s < |maps| && Typed(items)
    requires Laid(maps) && Mapped(maps, s, items) && Counted(maps, s, [], items) && ContiguousTree(items)
    ensures InPlace(mem, Run(maps, Outermost(s, base, mem), MessageEvents(maps[s].msg, items)),
                    Placed(maps, s, base, [], items, false), base, base + maps[s].size)
  {
    hide Laid, Mapped, Counted, Contiguous, InCell, Holds, Unchanged;
    var ws := Placed(maps, s, base, [], items, false);
    RunMessage(maps, s, base, items, mem);
    assert [] + FieldsOfItems(items) == FieldsOfItems(items);
    PlacedAsDecoded(maps, s, base, [], items);
    PlacedApart(maps, s, base, [], items);
    SeparateWritesStay(mem, ws);
    forall b | 0 <= b < |ws| ensures Inside(ws[b], base, base + maps[s].size) {
      CellInStruct(maps, s, base, [], ws[b]);
    }
  }

  /** So it is for the encoding of any such tree. */
  lemma StructPlacement(descs: Descs, maps: Maps, s: nat, base: nat, items: seq<Item>, mem: Memory)
    requires NumbersOk(descs) && s < |maps| && Shaped(items) && Declared(descs, maps[s].msg, items)
    requires Height(items) < MAX_DEPTH && |Enc(items)| < TWO64
    requires Laid(maps) && Mapped(maps, s, items) && Counted(maps, s, [], items) && ContiguousTree(items)
    ensures Typed(items)
    ensures var p := Parse(descs, maps[s].msg, Enc(items), true);
            && p.status.Done?
            && InPlace(mem, Run(maps, Outermost(s, base, mem), p.events), Placed(maps, s, base, [], items, false),
                       base, base + maps[s].size)
  {
    hide *;
    MessageRoundTrip(descs, maps[s].msg, items, true);
    ShapedTyped(items);
    TreePlacement(maps, s, base, items, mem);
  }

  lemma RunMessage(maps: Maps, s: nat, base: nat, items: seq<Item>, mem: Memory)
    requires s < |maps| && Typed(items) && Mapped(maps, s, items)
    ensures var r := Run(maps, Outermost(s, base, mem), MessageEvents(maps[s].msg, items));
            && r.Some? && r.value.depth == -1
            && r.value.mem == PokeAll(mem, Placed(maps, s, base, [], items, true))
  {
    hide Typed, Mapped, Events, Placed, PokeAll;
    var m := maps[s].msg;
    var start, es, end := MsgStart(m, 1, false), Events(m, m, 1, items), MsgEnd(m, 1, false);
    var st := Outermost(s, base, mem);
    var st1 := st.(depth := 0);
    assert Ready(maps, st, start) && OnEvent(maps, st, start) == st1;
    assert [] + [FrameAfter(maps, s, base, [])] == st.frames;
    RunItems(maps, s, base, [], items, st1, [], m, m, 1);
    var st2 := SState(PokeAll(mem, Placed(maps, s, base, [], items, true)), 0,
                      [] + [FrameAfter(maps, s, base, [] + FieldsOfItems(items))]);
    hide FrameAfter;
    assert Ready(maps, st2, end) && OnEvent(maps, st2, end) == st2.(depth := -1);
    hide Ready, OnEvent;
    RunOne(maps, st, start);
    RunOne(maps, st2, end);
    RunConcat(maps, st, [start], es + [end]);
    RunConcat(maps, st1, es, [end]);
  }

  /** Every occurrence of a message is one of the writes: the i-th item in the element its occurrence number says. */
  lemma {:induction false} OccurrencePlaced(maps: Maps, s: nat, base: nat, fs: seq<Field>, items: seq<Item>, i: nat)
    returns (a: nat)
    requires Typed(items) && Mapped(maps, s, items) && i < |items| && items[i].Single?
    ensures TypedItem(items[i]) && MappedItem(maps, s, items[i])
    ensures var j, ws := Find(FieldsIn(maps, s), items[i].f).value, Placed(maps, s, base, fs, items, false);
            var mf, k := FieldsIn(maps, s)[j], Occ(fs + FieldsOfItems(items[..i]), items[i].f);
            && a < |ws| && ws[a].at == base + mf.ofs + mf.len * k && ws[a].bytes == Stored(mf, items[i].v)
    decreases i
  {
    hide LenOk, Fits, Stored, Occ, Mapped, Typed;
    FirstParts(maps, s, items);
    if i == 0 {
      a := 0;
      assert fs + FieldsOfItems(items[..0]) == fs;
    } else {
      hide PlacedItem, TypedItem, MappedItem, Find, Times, Stride;
      var rest := OccurrencePlaced(maps, s, base, fs + [items[0].f], items[1..], i - 1);
      a := |PlacedItem(maps, s, base, fs, items[0], false)| + rest;
      FieldsOfFirst(fs, items[..i]);
      assert items[..i][1..] == items[1..][..i - 1];
    }
  }

  /** The writes `w` stand in a row from `a` on. */
  ghost predicate InRow(ws: seq<Write>, a: nat, w: seq<Write>) {
    a + |w| <= |ws| && ws[a..a + |w|] == w
  }

  lemma InRowBehind(u: seq<Write>, v: seq<Write>, a: nat, w: seq<Write>)
    requires InRow(v, a, w)
    ensures InRow(u + v, |u| + a, w)
  {
    assert (u + v)[|u| + a..|u| + a + |w|] == v[a..a + |w|];
  }

  /** The writes of a nested message that goes into the `k`-th struct of its entry. */
  ghost function BodyWrites(maps: Maps, s: nat, base: nat, k: nat, it: Item): seq<Write>
    requires it.Nested? && TypedItem(it) && MappedItem(maps, s, it)
  {
    var mf := FieldsIn(maps, s)[Find(FieldsIn(maps, s), it.f).value];
    Placed(maps, mf.sub, base + mf.ofs + maps[mf.sub].size * k, [], it.body, false)
  }

  /** A nested message's items go into the struct that its occurrence number says: struct after struct in the entry. */
  lemma {:induction false} BodyPlaced(maps: Maps, s: nat, base: nat, fs: seq<Field>, items: seq<Item>, i: nat)
    returns (a: nat)
    requires Typed(items) && Mapped(maps, s, items) && i < |items| && items[i].Nested?
    ensures TypedItem(items[i]) && MappedItem(maps, s, items[i])
    ensures InRow(Placed(maps, s, base, fs, items, false), a,
                  BodyWrites(maps, s, base, Occ(fs + FieldsOfItems(items[..i]), items[i].f), items[i]))
    decreases i
  {
    hide *;
    FirstParts(maps, s, items);
    if i == 0 {
      a := 0;
      FirstBodyPlaced(maps, s, base, fs, items);
    } else {
      PlacedNext(maps, s, base, fs, items);
      FieldsOfFirst(fs, items[..i]);
      var rest := BodyPlaced(maps, s, base, fs + [items[0].f], items[1..], i - 1);
      a := |PlacedItem(maps, s, base, fs, items[0], false)| + rest;
      assert items[..i][1..] == items[1..][..i - 1];
      InRowBehind(PlacedItem(maps, s, base, fs, items[0], false),
                  Placed(maps, s, base, fs + [items[0].f], items[1..], false), rest,
                  BodyWrites(maps, s, base, Occ(fs + FieldsOfItems(items[..i]), items[i].f), items[i]));
    }
  }

  lemma PlacedNext(maps: Maps, s: nat, base: nat, fs: seq<Field>, items: seq<Item>)
    requires Typed(items) && Mapped(maps, s, items) && items != []
    requires TypedItem(items[0]) && MappedItem(maps, s, items[0]) && Typed(items[1..]) && Mapped(maps, s, items[1..])
    ensures Placed(maps, s, base, fs, items, false)
            == PlacedItem(maps, s, base, fs, items[0], false) + Placed(maps, s, base, fs + [items[0].f], items[1..], false)
  {
    hide TypedItem, MappedItem, PlacedItem;
  }

  lemma FirstBodyPlaced(maps: Maps, s: nat, base: nat, fs: seq<Field>, items: seq<Item>)
    requires Typed(items) && Mapped(maps, s, items) && items != [] && items[0].Nested?
    requires TypedItem(items[0]) && MappedItem(maps, s, items[0])
    ensures InRow(Placed(maps, s, base, fs, items, false), 0,
                  BodyWrites(maps, s, base, Occ(fs + FieldsOfItems(items[..0]), items[0].f), items[0]))
  {
    hide LenOk, Fits, Stored, Occ, Mapped, Typed, Find;
    assert fs + FieldsOfItems(items[..0]) == fs;
    assert PlacedItem(maps, s, base, fs, items[0], false) <= Placed(maps, s, base, fs, items, false);
  }

  // ---- which elements the decoder fills ----

  /** Every element that is used has a size. */
  ghost predicate Sized(maps: Maps) {
    forall s, j {:trigger FieldsIn(maps, s)[j]} :: 0 <= j < |FieldsIn(maps, s)| ==> Stride(maps, FieldsIn(maps, s)[j]) > 0
  }

  function ItemCount(items: seq<Item>): nat
    decreases items, 1
  {
    if items == [] then 0
    else 1 + (if items[0].Nested? then ItemCount(items[0].body) else 0) + ItemCount(items[1..])
  }

  /** The addresses of the elements a message's items go to, those of nested messages behind the nested structs'
      own. */
  ghost function Elements(maps: Maps, s: nat, base: nat, fs: seq<Field>, items: seq<Item>, asDecoded: bool): (r: seq<nat>)
    requires Mapped(maps, s, items)
    ensures |r| == ItemCount(items)
    decreases items
  {
    if items == [] then []
    else
      var it := items[0];
      assert MappedItem(maps, s, it);
      var j := Find(FieldsIn(maps, s), it.f).value;
      var slot := Slot(maps, s, base, j, Index(fs, it.f, asDecoded));
      [slot] + (if it.Nested? then Elements(maps, FieldsIn(maps, s)[j].sub, slot, [], it.body, asDecoded) else [])
      + Elements(maps, s, base, fs + [it.f], items[1..], asDecoded)
  }

  /** Every occurrence gets its own number, at every level. */
  ghost predicate NumberedRight(fs: seq<Field>, items: seq<Item>)
    decreases items
  {
    items == [] ||
    (&& RunLength(fs, items[0].f) == Occ(fs, items[0].f)
     && (items[0].Nested? ==> NumberedRight([], items[0].body))
     && NumberedRight(fs + [items[0].f], items[1..]))
  }

  lemma {:induction false} NumberedExactlyWhenContiguous(fs: seq<Field>, items: seq<Item>)
    ensures var all := fs + FieldsOfItems(items);
            NumberedRight(fs, items)
            <==> CountedRight(all, |fs|) && ContiguousBodies(items)
    decreases items, 0
  {
    var all := fs + FieldsOfItems(items);
    if items != [] {
      var it, rest := items[0], items[1..];
      FieldsOfFirst(fs, items);
      assert all[|fs|] == it.f && all[..|fs|] == fs;
      NumberedExactlyWhenContiguous(fs + [it.f], rest);
      if it.Nested? { NumberedWhole(it.body); }
      BodiesStep(items);
      hide Occ, RunLength, ContiguousTree, ContiguousBodies;
      CountedStep(all, |fs|);
      hide CountedRight;
    }
  }

  lemma BodiesStep(items: seq<Item>)
    requires items != []
    ensures ContiguousBodies(items)
            <==> (items[0].Nested? ==> ContiguousTree(items[0].body)) && ContiguousBodies(items[1..])
  {
    hide ContiguousTree;
    if ContiguousBodies(items[1..]) {
      forall i | 0 < i < |items| && items[i].Nested? ensures ContiguousTree(items[i].body) {
        assert items[1..][i - 1] == items[i];
      }
    }
  }

  /** The fields from `n` on are numbered rightly. */
  predicate CountedRight(all: seq<Field>, n: nat) {
    forall i {:trigger all[i]} :: n <= i < |all| ==> RunLength(all[..i], all[i]) == Occ(all[..i], all[i])
  }

  lemma CountedStep(all: seq<Field>, n: nat)
    requires n < |all|
    ensures CountedRight(all, n) <==> RunLength(all[..n], all[n]) == Occ(all[..n], all[n]) && CountedRight(all, n + 1)
  {
    hide RunLength, Occ;
  }

  /** Every occurrence gets its own number, at every level, exactly when occurrences are contiguous, at every level. */
  lemma {:induction false} NumberedWhole(items: seq<Item>)
    ensures NumberedRight([], items) <==> ContiguousTree(items)
    decreases items, 1
  {
    var all := FieldsOfItems(items);
    assert [] + all == all;
    NumberedExactlyWhenContiguous([], items);
    CountsExactlyWhenContiguous(all);
  }

  lemma TimesInjective(size: nat, k: nat, l: nat)
    requires size > 0 && Times(size, k) == Times(size, l)
    ensures k == l
  {
    hide Times;
    if k < l { MultiplesApart(size, k, l); }
    if l < k { MultiplesApart(size, l, k); }
  }

  lemma SlotInjective(maps: Maps, s: nat, base: nat, j: nat, k: nat, l: nat)
    requires Sized(maps) && j < |FieldsIn(maps, s)| && Slot(maps, s, base, j, k) == Slot(maps, s, base, j, l)
    ensures k == l
  {
    hide Times;
    TimesInjective(Stride(maps, FieldsIn(maps, s)[j]), k, l);
  }

  lemma {:induction false} RightExactlyWhenNumbered(maps: Maps, s: nat, base: nat, fs: seq<Field>, items: seq<Item>)
    requires Sized(maps) && Mapped(maps, s, items)
    ensures Elements(maps, s, base, fs, items, true) == Elements(maps, s, base, fs, items, false)
            <==> NumberedRight(fs, items)
    decreases items
  {
    if items != [] {
      var it, rest := items[0], items[1..];
      assert MappedItem(maps, s, it) && Mapped(maps, s, rest);
      var j := Find(FieldsIn(maps, s), it.f).value;
      var sub := FieldsIn(maps, s)[j].sub;
      var slot1, slot2 := Slot(maps, s, base, j, RunLength(fs, it.f)), Slot(maps, s, base, j, Occ(fs, it.f));
      if slot1 == slot2 { SlotInjective(maps, s, base, j, RunLength(fs, it.f), Occ(fs, it.f)); }
      hide Sized, Mapped, Slot, Find, RunLength, Occ;
      RightExactlyWhenNumbered(maps, s, base, fs + [it.f], rest);
      var r1, r2 := Elements(maps, s, base, fs + [it.f], rest, true), Elements(maps, s, base, fs + [it.f], rest, false);
      if it.Nested? {
        RightExactlyWhenNumbered(maps, sub, slot1, [], it.body);
        PartsEqual(slot1, Elements(maps, sub, slot1, [], it.body, true), r1,
                   slot2, Elements(maps, sub, slot2, [], it.body, false), r2);
      } else {
        PartsEqual(slot1, [], r1, slot2, [], r2);
      }
    }
  }

  lemma PartsEqual(a: nat, b: seq<nat>, c: seq<nat>, x: nat, y: seq<nat>, z: seq<nat>)
    requires |b| == |y|
    ensures [a] + b + c == [x] + y + z <==> a == x && b == y && c == z
  {
    if [a] + b + c == [x] + y + z {
      assert ([a] + b + c)[0] == a && ([x] + y + z)[0] == x;
      assert ([a] + b + c)[1..1 + |b|] == b && ([x] + y + z)[1..1 + |b|] == y;
      assert ([a] + b + c)[1 + |b|..] == c && ([x] + y + z)[1 + |b|..] == z;
    }
  }

  /** The decoder fills the elements that the occurrences belong to exactly when the occurrences of every field are
      contiguous, at every level. */
  lemma RightExactlyWhenContiguous(maps: Maps, s: nat, base: nat, items: seq<Item>)
    requires Sized(maps) && Mapped(maps, s, items)
    ensures Elements(maps, s, base, [], items, true) == Elements(maps, s, base, [], items, false)
            <==> ContiguousTree(items)
  {
    RightExactlyWhenNumbered(maps, s, base, [], items);
    NumberedWhole(items);
  }

  /** Interleaved: the second occurrence of `a` goes to the element that has the first. */
  lemma InterleavedOverwrites(maps: Maps, s: nat, base: nat, a: Field, b: Field, x: Value, y: Value, z: Value)
    requires var items := [Single(a, x), Single(b, y), Single(a, z)];
             a != b && Typed(items) && Mapped(maps, s, items)
    ensures var ws := Placed(maps, s, base, [], [Single(a, x), Single(b, y), Single(a, z)], true);
            |ws| == 3 && ws[2].at == ws[0].at
    ensures !ContiguousTree([Single(a, x), Single(b, y), Single(a, z)])
  {
    var items := [Single(a, x), Single(b, y), Single(a, z)];
    assert items[1..] == [items[1], items[2]] && items[1..][1..] == [items[2]] && items[1..][1..][1..] == [];
    assert [] + [a] == [a] && [a] + [b] == [a, b] && [a, b][..1] == [a] && [a][..0] == [];
    assert RunLength([], a) == 0 && RunLength([a, b], a) == 0;
    var fs := FieldsOfItems(items);
    assert fs[0] == fs[2] && fs[1] != fs[0];
    hide RunLength, Find, Slot, Stored;
    assert Placed(maps, s, base, [a, b] + [a], [], true) == [];
    var w0, w1, w2 := PlacedItem(maps, s, base, [], items[0], true), PlacedItem(maps, s, base, [a], items[1], true),
                      PlacedItem(maps, s, base, [a, b], items[2], true);
    assert Placed(maps, s, base, [a, b], [items[2]], true) == w2 + [];
    assert Placed(maps, s, base, [a], [items[1], items[2]], true) == w1 + w2;
    assert Placed(maps, s, base, [], items, true) == w0 + (w1 + w2);
  }

  // ---- staying inside an array ----

  /** The element `k` of an entry lies in the entry's array. */
  predicate ElementInside(maps: Maps, s: nat, base: nat, j: nat, k: nat)
    requires j < |FieldsIn(maps, s)|
  {
    var mf := FieldsIn(maps, s)[j];
    Slot(maps, s, base, j, k) + Stride(maps, mf) <= base + mf.ofs + Times(Stride(maps, mf), mf.count)
  }

  /** Every element the decoder fills lies in the array of its own entry, at every level. */
  ghost predicate StaysInside(maps: Maps, s: nat, base: nat, fs: seq<Field>, items: seq<Item>)
    requires Mapped(maps, s, items)
    decreases items
  {
    items == [] ||
    (assert MappedItem(maps, s, items[0]);
     var it := items[0];
     var j, k := Find(FieldsIn(maps, s), it.f).value, RunLength(fs, it.f);
     && ElementInside(maps, s, base, j, k)
     && (it.Nested? ==> StaysInside(maps, FieldsIn(maps, s)[j].sub, Slot(maps, s, base, j, k), [], it.body))
     && StaysInside(maps, s, base, fs + [it.f], items[1..]))
  }

  /** No field occurs more often in a row than there is room for, at every level. */
  ghost predicate RunsCounted(maps: Maps, s: nat, fs: seq<Field>, items: seq<Item>)
    requires Mapped(maps, s, items)
    decreases items
  {
    items == [] ||
    (assert MappedItem(maps, s, items[0]);
     var it := items[0];
     var mf := FieldsIn(maps, s)[Find(FieldsIn(maps, s), it.f).value];
     && RunLength(fs, it.f) < mf.count
     && (it.Nested? ==> RunsCounted(maps, mf.sub, [], it.body))
     && RunsCounted(maps, s, fs + [it.f], items[1..]))
  }

  lemma ElementInsideExactly(maps: Maps, s: nat, base: nat, j: nat, k: nat)
    requires Sized(maps) && j < |FieldsIn(maps, s)|
    ensures ElementInside(maps, s, base, j, k) <==> k < FieldsIn(maps, s)[j].count
  {
    var mf := FieldsIn(maps, s)[j];
    hide Times;
    if k < mf.count {
      MultiplesApart(Stride(maps, mf), k, mf.count);
    } else if k > mf.count {
      MultiplesApart(Stride(maps, mf), mf.count, k);
    }
  }

  /** The handlers do not compare an index with the number of elements: every element that the decoder fills lies in
      its own array, at every level, exactly when no field occurs more often in a row than there is room for. */
  lemma {:induction false} InsideExactlyWhenRunsCounted(maps: Maps, s: nat, base: nat, fs: seq<Field>, items: seq<Item>)
    requires Sized(maps) && Mapped(maps, s, items)
    ensures StaysInside(maps, s, base, fs, items) <==> RunsCounted(maps, s, fs, items)
    decreases items
  {
    if items != [] {
      var it, rest := items[0], items[1..];
      assert MappedItem(maps, s, it) && Mapped(maps, s, rest);
      var j := Find(FieldsIn(maps, s), it.f).value;
      var slot := Slot(maps, s, base, j, RunLength(fs, it.f));
      ElementInsideExactly(maps, s, base, j, RunLength(fs, it.f));
      hide Sized, Mapped, Slot, Find, RunLength, ElementInside;
      InsideExactlyWhenRunsCounted(maps, s, base, fs + [it.f], rest);
      if it.Nested? {
        InsideExactlyWhenRunsCounted(maps, FieldsIn(maps, s)[j].sub, slot, [], it.body);
      }
    }
  }

  /** As long as they do, nothing outside the outermost struct is written, interleaved or not. */
  lemma {:induction false} WritesInside(maps: Maps, s: nat, base: nat, fs: seq<Field>, items: seq<Item>)
    requires Laid(maps) && Typed(items) && Mapped(maps, s, items) && RunsCounted(maps, s, fs, items)
    ensures AllInside(Placed(maps, s, base, fs, items, true), base, base + SizeOf(maps, s))
    decreases items, 1
  {
    if items != [] {
      var it, rest := items[0], items[1..];
      FirstParts(maps, s, items);
      hide Laid, Mapped, Typed, TypedItem, MappedItem, Find, RunLength, PlacedItem, AllInside, SizeOf;
      ItemInside(maps, s, base, fs, it);
      WritesInside(maps, s, base, fs + [it.f], rest);
      BothInside(PlacedItem(maps, s, base, fs, it, true), Placed(maps, s, base, fs + [it.f], rest, true),
                 base, base + SizeOf(maps, s));
    }
  }

  lemma {:induction false} ItemInside(maps: Maps, s: nat, base: nat, fs: seq<Field>, it: Item)
    requires Laid(maps) && TypedItem(it) && MappedItem(maps, s, it)
    requires var mf := FieldsIn(maps, s)[Find(FieldsIn(maps, s), it.f).value];
             RunLength(fs, it.f) < mf.count && (it.Nested? ==> RunsCounted(maps, mf.sub, [], it.body))
    ensures AllInside(PlacedItem(maps, s, base, fs, it, true), base, base + SizeOf(maps, s))
    decreases it, 0
  {
    hide Laid, Mapped, Typed, RunLength, RunsCounted, Placed, Find, Times, LenOk, Fits;
    var j, k := Find(FieldsIn(maps, s), it.f).value, RunLength(fs, it.f);
    var mf, slot := FieldsIn(maps, s)[j], Slot(maps, s, base, j, RunLength(fs, it.f));
    EntryLaid(maps, s, j);
    MultiplesApart(Stride(maps, mf), k, mf.count);
    if it.Nested? {
      WritesInside(maps, mf.sub, slot, [], it.body);
    }
  }

  lemma EntryLaid(maps: Maps, s: nat, j: nat)
    requires Laid(maps) && j < |FieldsIn(maps, s)|
    ensures var mf := FieldsIn(maps, s)[j]; mf.ofs + Times(Stride(maps, mf), mf.count) <= SizeOf(maps, s)
  {
    assert LaidEntry(maps, s, j);
  }

  lemma BothInside(v: seq<Write>, w: seq<Write>, lo: nat, hi: nat)
    requires AllInside(v, lo, hi) && AllInside(w, lo, hi)
    ensures AllInside(v + w, lo, hi)
  {
    hide Inside;
    forall b | 0 <= b < |v + w| ensures Inside((v + w)[b], lo, hi) {
      if b < |v| { assert (v + w)[b] == v[b]; } else { assert (v + w)[b] == w[b - |v|]; }
    }
  }

  /** One occurrence too many: a field with room for one number, at the end of its struct, that occurs twice. */
  lemma OneTooMany(f: Field, x: Value, y: Value, base: nat)
    requires f.typ == UInt32 && !IsPackedRepeated(f) && Fits(UInt32, x) && Fits(UInt32, y)
    ensures var maps, items := [StructMap(0, 4, [MapField(f, 0, 4, 1, 0)])], [Single(f, x), Single(f, y)];
            && Typed(items) && Mapped(maps, 0, items) && ContiguousTree(items)
            && var ws := Placed(maps, 0, base, [], items, true);
               |ws| == 2 && ws[1].at == base + 4 && !StaysInside(maps, 0, base, [], items)
  {
    var maps, items := [StructMap(0, 4, [MapField(f, 0, 4, 1, 0)])], [Single(f, x), Single(f, y)];
    assert FieldsIn(maps, 0) == [MapField(f, 0, 4, 1, 0)];
    assert Find(FieldsIn(maps, 0), f) == Some(0);
    assert items[1..] == [items[1]] && items[1..][1..] == [];
    assert [] + [f] == [f] && [f][..0] == [];
    assert RunLength([], f) == 0 && RunLength([f], f) == 1;
    assert Slot(maps, 0, base, 0, 0) == base && Slot(maps, 0, base, 0, 1) == base + 4;
    assert MappedItem(maps, 0, items[0]) && MappedItem(maps, 0, items[1]);
    hide Find, Slot, RunLength, Stored;
    assert Placed(maps, 0, base, [f] + [f], [], true) == [];
    assert Placed(maps, 0, base, [f], [items[1]], true) == PlacedItem(maps, 0, base, [f], items[1], true);
  }

  // ---- the decoder ----

  class StructDecoder {
    const maps: Maps
    const stack: array<SFrame>
    var depth: int
    var mem: Memory

    constructor (maps: Maps, mem: Memory)
      ensures this.maps == maps && this.mem == mem && stack.Length == MAX_DEPTH && fresh(stack)
    {
      this.maps, this.mem := maps, mem;
      stack := new SFrame[MAX_DEPTH](_ => SFrame(0, 0, None, 0));
      depth := -1;
    }

    ghost predicate Valid()
      reads this
    {
      stack.Length == MAX_DEPTH && -1 <= depth < MAX_DEPTH
    }

    function State(): SState
      requires Valid()
      reads this, stack
    {
      SState(mem, depth, stack[..if depth < 0 then 1 else depth + 1])
    }

    /** The entry for a field. */
    method FindMapField(s: nat, f: Field) returns (j: nat)
      requires Find(FieldsIn(maps, s), f).Some?
      ensures Find(FieldsIn(maps, s), f) == Some(j)
    {
      ghost var fields := FieldsIn(maps, s);
      j := 0;
      assert fields[0..] == fields;
      while maps[s].fields[j].f != f
        invariant j < |fields| && Find(fields[j..], f).Some?
        invariant Find(fields, f).value == j + Find(fields[j..], f).value
        decreases |fields| - j
      {
        assert fields[j..][1..] == fields[j + 1..];
        j := j + 1;
      }
    }

    /** Writes a value into the next element of its entry, the first if the last field was another one; a nested
        message's struct is chosen but nothing written yet. */
    method FieldHandler(ghost m: nat, f: Field, v: Option<Value>)
      requires Valid() && Ready(maps, State(), FieldEvent(m, f, v))
      modifies this`mem, stack
      ensures Valid() && State() == OnEvent(maps, old(State()), FieldEvent(m, f, v))
    {
      hide Find, Stored, Fits, LenOk, Poke;
      ghost var before := State().frames[..depth];
      var frame := stack[depth];
      var j := FindMapField(frame.structMap, f);
      if frame.last != Some(j) {
        frame := frame.(index := 0);
      }
      frame := frame.(last := Some(j));
      if v.Some? {
        var at := Slot(maps, frame.structMap, frame.base, j, frame.index);
        mem := Poke(mem, Write(at, Stored(maps[frame.structMap].fields[j], v.value)));
        frame := frame.(index := frame.index + 1);
      }
      stack[depth] := frame;
      assert State().frames == before + [frame];
    }

    /** Enters a message: the outermost struct, or the next element of the entry just announced. */
    method MsgStartHandler(m: nat, ghost level: nat, ghost isPacked: bool)
      requires Valid() && depth + 1 < MAX_DEPTH && Ready(maps, State(), MsgStart(m, level, isPacked))
      modifies this`depth, stack
      ensures Valid() && State() == OnEvent(maps, old(State()), MsgStart(m, level, isPacked))
    {
      hide Find;
      ghost var before := State().frames;
      depth := depth + 1;
      if depth > 0 {
        var last := stack[depth - 1];
        var field := maps[last.structMap].fields[last.last.value];
        stack[depth] := SFrame(field.sub, Slot(maps, last.structMap, last.base, last.last.value, last.index), None, 0);
        stack[depth - 1] := last.(index := last.index + 1);
        assert stack[..depth + 1] == before[..depth - 1] + [stack[depth - 1], stack[depth]];
      }
    }

    /** Leaves a message. */
    method MsgEndHandler(ghost m: nat, ghost level: nat, ghost isPacked: bool)
      requires Valid() && Ready(maps, State(), MsgEnd(m, level, isPacked))
      modifies this`depth
      ensures Valid() && State() == OnEvent(maps, old(State()), MsgEnd(m, level, isPacked))
    {
      ghost var before := State().frames;
      depth := depth - 1;
      assert depth >= 0 ==> stack[..depth + 1] == before[..depth + 1];
    }

    /** Decodes bytes into the struct at `base`, as far as they go. When they are a tree whose fields are mapped, its
        items have been written, each into the element counted for it. */
    method Decode(d: Decoder.Decoder, s: nat, base: nat, data: seq<byte>, ghost items: seq<Item>)
      returns (err: Err, used: nat)
      requires d.stack.Length == MAX_DEPTH && stack.Length == MAX_DEPTH && s < |maps|
      requires Defined(Parse(d.descs, maps[s].msg, data, true).status)
      requires Run(maps, Outermost(s, base, mem), Parse(d.descs, maps[s].msg, data, true).events).Some?
      modifies this, stack, d, d.stack
      ensures Valid()
      ensures var p := Parse(d.descs, maps[s].msg, data, true);
              && err == (if p.status.Done? then Ok else EndOfBuf) && (err.Ok? ==> used == |data|)
              && Run(maps, Outermost(s, base, old(mem)), p.events) == Some(State())
      ensures Parse(d.descs, maps[s].msg, data, true).events == MessageEvents(maps[s].msg, items)
              && Typed(items) && Mapped(maps, s, items) ==>
                depth == -1 && mem == PokeAll(old(mem), Placed(maps, s, base, [], items, true))
    {
      hide Typed, Mapped, Placed, PokeAll, Parse, MessageEvents, Run, Ready, OnEvent, Follow;
      depth := -1;
      stack[0] := SFrame(s, base, None, 0);
      var m := maps[s].msg;
      ghost var st := Outermost(s, base, mem);
      assert st == State();
      if Typed(items) && Mapped(maps, s, items) { RunMessage(maps, s, base, items, mem); }
      HandlersSeeNestedFrames(d.descs, m, data);
      err, used := d.Decode(m, data);
      ghost var es := d.trace;
      RunNothing(maps, st);
      assert es[..0] == [];
      for i := 0 to |d.trace|
        invariant Valid() && d.trace == es && Run(maps, st, es[..i]) == Some(State())
      {
        NextEvent(maps, st, Frames([], Some(m)), es, i);
        match d.trace[i]
        case MsgStart(msg, level, packed) => MsgStartHandler(msg, level, packed);
        case MsgEnd(msg, level, packed) => MsgEndHandler(msg, level, packed);
        case FieldEvent(msg, f, v) => FieldHandler(msg, f, v);
      }
      assert es[..|es|] == es;
    }
  }

  lemma RunNothing(maps: Maps, st: SState)
    ensures Run(maps, st, []) == Some(st)
  {
  }

  /** The next event of a run is ready to be handled, and starts no message beyond the stack. */
  lemma NextEvent(maps: Maps, st: SState, fr: Frames, es: seq<Event>, i: nat)
    requires st.depth == |fr.open| - 1 && i < |es| && Run(maps, st, es).Some? && Follow(es, fr).Some?
    ensures Run(maps, st, es[..i]).Some?
    ensures var st1 := Run(maps, st, es[..i]).value;
            && Ready(maps, st1, es[i]) && Run(maps, st, es[..i + 1]) == Some(OnEvent(maps, st1, es[i]))
            && (es[i].MsgStart? ==> st1.depth + 1 < MAX_DEPTH)
  {
    DepthFollowsDecoder(maps, st, fr, es, i);
    var st1, fr1 := Run(maps, st, es[..i]).value, Follow(es[..i], fr).value;
    assert es == es[..i] + es[i..] && es[..i + 1] == es[..i] + [es[i]] && es[i..][0] == es[i];
    RunConcat(maps, st, es[..i], es[i..]);
    RunConcat(maps, st, es[..i], [es[i]]);
    FollowConcat(es[..i], es[i..], fr);
    hide OnEvent, Ready;
    RunOne(maps, st1, es[i]);
  }
}
