/** The Python encoder: encoder2.c's writers and the recursive two-pass object encoder of python/encoder.c.
    A null buffer only counts; a real one is written in place. */
module DictEncoder {
  import opened Wire
  import opened Schema
  import opened Scalars
  import opened Format
  import opened Buffers
  import opened Fields
  import opened PyObjects

  // ---- writers: the length, and the bytes when there is a buffer ----

  /** What a writer did to its buffer, if it has one. */
  ghost predicate Put(mem: seq<byte>, mem': seq<byte>, at: nat, b: seq<byte>) {
    at + |b| <= |mem| && mem' == Splice(mem, at, b)
  }

  lemma PutThen(m0: seq<byte>, m1: seq<byte>, m2: seq<byte>, at: nat, a: seq<byte>, b: seq<byte>)
    requires Put(m0, m1, at, a) && Put(m1, m2, at + |a|, b)
    ensures Put(m0, m2, at, a + b)
  {
    SpliceSplice(m0, at, a, b);
  }

  ghost function Contents(buf: array?<byte>): (s: seq<byte>)
    reads buf
  {
    if buf == null then [] else buf[..]
  }

  ghost function Footprint(buf: array?<byte>): set<object> {
    if buf == null then {} else {buf}
  }

  method EncodeVarint(buf: array?<byte>, at: nat, varint: u64) returns (len: nat)
    requires buf != null ==> at + |Varint(varint)| <= buf.Length
    modifies Footprint(buf)
    ensures len == |Varint(varint)|
    ensures buf != null ==> Put(old(Contents(buf)), Contents(buf), at, Varint(varint))
  {
    hide Splice, Varint;
    ghost var goal, mem := Varint(varint), Contents(buf);
    assert goal[0..] == goal;
    if buf != null { NothingWritten(mem, at, goal); }
    var v := varint;
    len := 0;
    var more := true;
    while more
      invariant len <= |goal|
      invariant buf != null ==> buf[..] == Splice(mem, at, goal[..len])
      invariant if more then Varint(v) == goal[len..] else len == |goal|
      decreases |goal| - len, more
    {
      VarintDigit(goal, len, v);
      if buf != null {
        buf[at + len] := if v > 127 then 128 + v % 128 else v % 128;
        WriteNext(mem, at, goal, len);
      }
      v := v / 128;
      len := len + 1;
      more := v != 0;
    }
    assert goal[..|goal|] == goal;
  }

  method Encode32(buf: array?<byte>, at: nat, value: u32) returns (len: nat)
    requires buf != null ==> at + 4 <= buf.Length
    modifies Footprint(buf)
    ensures len == 4
    ensures buf != null ==> Put(old(Contents(buf)), Contents(buf), at, Le(value, 4))
  {
    if buf != null {
      buf[at] := value % 256;
      buf[at + 1] := value / 0x100 % 256;
      buf[at + 2] := value / 0x1_0000 % 256;
      buf[at + 3] := value / 0x100_0000 % 256;
      LeFour(value, 0);
    }
    len := 4;
  }

  method Encode64(buf: array?<byte>, at: nat, value: u64) returns (len: nat)
    requires buf != null ==> at + 8 <= buf.Length
    modifies Footprint(buf)
    ensures len == 8
    ensures buf != null ==> Put(old(Contents(buf)), Contents(buf), at, Le(value, 8))
  {
    hide Le;
    if buf != null {
      var v := value;
      buf[at] := v % 256;
      buf[at + 1] := v / 0x100 % 256;
      buf[at + 2] := v / 0x1_0000 % 256;
      buf[at + 3] := v / 0x100_0000 % 256;
      v := v / TWO32;
      buf[at + 4] := v % 256;
      buf[at + 5] := v / 0x100 % 256;
      buf[at + 6] := v / 0x1_0000 % 256;
      buf[at + 7] := v / 0x100_0000 % 256;
      LeFour(value, 4);
      LeFour(v, 0);
    }
    len := 8;
  }

  // ---- fields ----

  /** The bytes a field takes; of a region only the length matters. */
  function FieldLength(f: Field, packed: bool, arg: Arg): nat
    requires arg.Direct? ==> ArgOk(f, packed, arg, 0)
  {
    match arg
    case Direct(v) => |FieldBytes(f, packed, WireFor(f, packed, arg, []))|
    case Region(_, len) => |Varint(Key(f, WtString))| + |Varint(len)| + len
  }

  class Encoder2 {
    var packed: bool

    constructor ()
      ensures !packed
    {
      packed := false;
    }

    /** Enters packed mode. */
    method PackedStart(f: Field)
      requires IsPackedRepeated(f) && !packed
      modifies this
      ensures packed
    {
      packed := true;
    }

    /** Leaves packed mode. */
    method PackedEnd()
      requires packed
      modifies this
      ensures !packed
    {
      packed := false;
    }

    /** Encodes a field at `at`: returns its length, and writes its bytes when there is a buffer. A body given
        as a region of the same buffer must lie beyond the header written in front of it. */
    method AddField(f: Field, arg: Arg, buf: array?<byte>, at: nat) returns (len: nat)
      requires arg.Direct? ==> ArgOk(f, packed, arg, 0)
      requires arg.Region? ==> !packed && TakesBody(f, packed) && arg.len < TWO64
      requires buf != null ==> ArgOk(f, packed, arg, buf.Length) && at + FieldLength(f, packed, arg) <= buf.Length
      requires buf != null && arg.Region? ==> at + |Varint(Key(f, WtString))| + |Varint(arg.len)| <= arg.start
      modifies Footprint(buf)
      ensures len == FieldLength(f, packed, arg)
      ensures buf != null ==>
                Put(old(Contents(buf)), Contents(buf), at, FieldBytes(f, packed, WireFor(f, packed, arg, old(Contents(buf)))))
    {
      hide ToWire, Splice, Put;
      ghost var mem := Contents(buf);
      if packed {
        len := EncodeWire(f, packed, arg, buf, at);
        return;
      }
      var wt := if TakesBody(f, packed) then WtString else FieldWireType(f.typ);
      len := EncodeVarint(buf, at, Key(f, wt));
      ghost var mem1 := Contents(buf);
      if buf != null { RegionKept(mem, mem1, at, Varint(Key(f, wt)), arg); }
      var size := EncodeWire(f, packed, arg, buf, at + len);
      if buf != null {
        PutThen(mem, mem1, Contents(buf), at, Varint(Key(f, wt)), EncWire(WireFor(f, packed, arg, mem)));
      }
      len := len + size;
    }
  }

  /** Bytes written in front of a region leave it intact. */
  lemma RegionKept(mem: seq<byte>, mem': seq<byte>, at: nat, b: seq<byte>, arg: Arg)
    requires Put(mem, mem', at, b)
    requires arg.Region? ==> at + |b| <= arg.start && arg.start + arg.len <= |mem|
    ensures |mem'| == |mem|
    ensures arg.Region? ==> mem'[arg.start..arg.start + arg.len] == mem[arg.start..arg.start + arg.len]
  {
  }

  function WireLength(f: Field, packed: bool, arg: Arg): nat
    requires arg.Direct? ==> ArgOk(f, packed, arg, 0)
  {
    match arg
    case Direct(v) => |EncWire(WireFor(f, packed, arg, []))|
    case Region(_, len) => |Varint(len)| + len
  }

  /** Writes a wire value. */
  method EncodeWire(f: Field, packed: bool, arg: Arg, buf: array?<byte>, at: nat) returns (len: nat)
    requires arg.Direct? ==> ArgOk(f, packed, arg, 0)
    requires arg.Region? ==> TakesBody(f, packed) && arg.len < TWO64
    requires buf != null ==> ArgOk(f, packed, arg, buf.Length) && at + WireLength(f, packed, arg) <= buf.Length
    requires buf != null && arg.Region? ==> at + |Varint(arg.len)| <= arg.start
    modifies Footprint(buf)
    ensures len == WireLength(f, packed, arg)
    ensures buf != null ==>
              Put(old(Contents(buf)), Contents(buf), at, EncWire(WireFor(f, packed, arg, old(Contents(buf)))))
  {
    hide Put, Varint, ToWire, Le;
    if TakesBody(f, packed) {
      len := EncodeBody(arg, buf, at);
    } else {
      match ToWire(f.typ, arg.v)
      case WVarint(v) => len := EncodeVarint(buf, at, v);
      case W64(w) => len := Encode64(buf, at, w);
      case WString(s) => len := EncodeBody(Direct(Str(s)), buf, at);
      case W32(d) => len := Encode32(buf, at, d);
    }
  }

  function BodyLength(arg: Arg): nat
    requires arg.Direct? ==> Fits(Message, arg.v)
  {
    match arg
    case Direct(v) => |v.data|
    case Region(_, n) => n
  }

  /** A body given directly, or as a region of the buffer. */
  ghost function BodyOf(arg: Arg, mem: seq<byte>): (b: seq<byte>)
    requires arg.Direct? ==> Fits(Message, arg.v)
    requires arg.Region? ==> arg.start + arg.len <= |mem|
    ensures |b| == BodyLength(arg)
  {
    match arg
    case Direct(v) => v.data
    case Region(start, n) => mem[start..start + n]
  }

  /** Writes a length and a body: copied in from elsewhere, or moved left within the buffer. */
  method EncodeBody(arg: Arg, buf: array?<byte>, at: nat) returns (len: nat)
    requires arg.Direct? ==> Fits(Message, arg.v)
    requires arg.Region? ==> arg.len < TWO64
    requires buf != null && arg.Region? ==> arg.start + arg.len <= buf.Length && at + |Varint(arg.len)| <= arg.start
    requires buf != null ==> at + |Varint(BodyLength(arg))| + BodyLength(arg) <= buf.Length
    modifies Footprint(buf)
    ensures len == |Varint(BodyLength(arg))| + BodyLength(arg)
    ensures buf != null ==>
              Put(old(Contents(buf)), Contents(buf), at, EncWire(WString(BodyOf(arg, old(Contents(buf))))))
  {
    hide Put, Varint;
    ghost var mem := Contents(buf);
    var n := BodyLength(arg);
    len := EncodeVarint(buf, at, n);
    if buf != null {
      ghost var mem1 := Contents(buf);
      RegionKept(mem, mem1, at, Varint(n), arg);
      ghost var body := BodyOf(arg, mem);
      PlaceBody(arg, buf, at + len);
      hide BodyOf, Fits;
      PutThen(mem, mem1, Contents(buf), at, Varint(n), body);
    }
    len := len + n;
  }

  /** Copies or moves a body. */
  method PlaceBody(arg: Arg, buf: array<byte>, at: nat)
    requires arg.Direct? ==> Fits(Message, arg.v)
    requires arg.Region? ==> arg.start + arg.len <= buf.Length && at <= arg.start
    requires at + BodyLength(arg) <= buf.Length
    modifies buf
    ensures Put(old(buf[..]), buf[..], at, BodyOf(arg, old(buf[..])))
  {
    hide Splice;
    match arg {
      case Direct(v) => CopyIn(buf, at, v.data);
      case Region(start, n) => MoveLeft(buf, at, start, n);
    }
  }

  // ---- objects that can be encoded ----

  /** The object can be encoded as a message of kind `m`: every value under a declared name suits its field. */
  ghost predicate Encodable(descs: Descs, m: nat, obj: PyObj)
    decreases obj, 1
  {
    obj.PyDict? &&
    forall f :: f in FieldsOf(descs, m) && f.name in obj.d ==> Suits(descs, f, obj.d[f.name])
  }

  ghost predicate Suits(descs: Descs, f: Field, x: PyObj)
    decreases x, 2
  {
    && (IsPackedRepeated(f) ==> PackedField(f))
    && forall j {:trigger Element(x, j)} :: 0 <= j < Count(x) ==>
         if f.typ.Message? then Encodable(descs, f.msg, Element(x, j))
         else Element(x, j).PyScalar? && Fits(f.typ, Element(x, j).v)
  }

  // ---- the tree an object stands for: fields in descriptor order, values in list order ----

  ghost function ItemsOf(descs: Descs, m: nat, obj: PyObj): (r: seq<Item>)
    requires Encodable(descs, m, obj)
    ensures Shaped(r)
    decreases obj, 3
  {
    FieldsItems(descs, m, obj, |FieldsOf(descs, m)|)
  }

  /** The items of the first `i` declared fields. */
  ghost function FieldsItems(descs: Descs, m: nat, obj: PyObj, i: nat): (r: seq<Item>)
    requires Encodable(descs, m, obj) && i <= |FieldsOf(descs, m)|
    ensures Shaped(r)
    decreases obj, 2, i
  {
    if i == 0 then []
    else
      var f := FieldsOf(descs, m)[i - 1];
      var before := FieldsItems(descs, m, obj, i - 1);
      if f.name in obj.d then
        var items := FieldItems(descs, f, obj.d[f.name]);
        ShapedConcat(before, items);
        before + items
      else before
  }

  ghost function FieldItems(descs: Descs, f: Field, x: PyObj): (r: seq<Item>)
    requires Suits(descs, f, x)
    ensures Shaped(r)
    decreases x, 5
  {
    if IsPackedRepeated(f) then [Packed(f, PackedValues(descs, f, x, Count(x)))] else ValueItems(descs, f, x, Count(x))
  }

  /** The first `j` values of a packed field. */
  ghost function PackedValues(descs: Descs, f: Field, x: PyObj, j: nat): (vs: seq<Value>)
    requires Suits(descs, f, x) && PackedField(f) && j <= Count(x)
    ensures |vs| == j && FitAll(f.typ, vs)
  {
    if j == 0 then []
    else
      var before, v := PackedValues(descs, f, x, j - 1), Element(x, j - 1).v;
      FitAllConcat(f.typ, before, [v]);
      before + [v]
  }

  /** The items of the first `j` values of a field that is not packed. */
  ghost function ValueItems(descs: Descs, f: Field, x: PyObj, j: nat): (r: seq<Item>)
    requires Suits(descs, f, x) && !IsPackedRepeated(f) && j <= Count(x)
    ensures Shaped(r) && |r| == j
    decreases x, 4, j
  {
    if j == 0 then []
    else
      var before, v := ValueItems(descs, f, x, j - 1), Element(x, j - 1);
      var it := if f.typ.Message? then Nested(f, ItemsOf(descs, f.msg, v)) else Single(f, v.v);
      ShapedConcat(before, [it]);
      before + [it]
  }

  /** The tree of an encodable object uses only declared fields. */
  lemma {:induction false} ItemsDeclared(descs: Descs, m: nat, obj: PyObj, i: nat)
    requires Encodable(descs, m, obj) && i <= |FieldsOf(descs, m)|
    ensures Declared(descs, m, FieldsItems(descs, m, obj, i))
    decreases obj, 2, i
  {
    if i > 0 {
      var f := FieldsOf(descs, m)[i - 1];
      ItemsDeclared(descs, m, obj, i - 1);
      if f.name in obj.d && !IsPackedRepeated(f) {
        ValuesDeclared(descs, m, f, obj.d[f.name], Count(obj.d[f.name]));
      }
    }
  }

  lemma {:induction false} ValuesDeclared(descs: Descs, m: nat, f: Field, x: PyObj, j: nat)
    requires Suits(descs, f, x) && !IsPackedRepeated(f) && j <= Count(x) && f in FieldsOf(descs, m)
    ensures Declared(descs, m, ValueItems(descs, f, x, j))
    decreases x, 4, j
  {
    if j > 0 {
      ValuesDeclared(descs, m, f, x, j - 1);
      if f.typ.Message? {
        ItemsDeclared(descs, f.msg, Element(x, j - 1), |FieldsOf(descs, f.msg)|);
      }
    }
  }

  // ---- encoding a tree in place ----

  /** The tree's encoding stands at `at`, and nothing outside its need has been touched. */
  ghost predicate Encoded(mem: seq<byte>, mem': seq<byte>, at: nat, items: seq<Item>)
    requires Shaped(items)
  {
    && |mem'| == |mem| && at + Need(items) <= |mem|
    && |Enc(items)| <= Need(items)
    && mem'[at..at + |Enc(items)|] == Enc(items)
    && mem'[..at] == mem[..at] && mem'[at + Need(items)..] == mem[at + Need(items)..]
  }

  lemma EncodedThen(m0: seq<byte>, m1: seq<byte>, m2: seq<byte>, at: nat, a: seq<Item>, b: seq<Item>)
    requires Shaped(a) && Shaped(b)
    requires Encoded(m0, m1, at, a) && Encoded(m1, m2, at + |Enc(a)|, b)
    ensures Shaped(a + b) && Encoded(m0, m2, at, a + b)
  {
    hide Enc, Need, Shaped;
    EncConcat(a, b);
    NeedConcat(a, b);
    EncWithinNeed(a + b);
    JoinStretches(m0, m1, m2, at, |Enc(a)|, Need(a), |Enc(b)|, Need(b));
  }

  lemma JoinStretches(m0: seq<byte>, m1: seq<byte>, m2: seq<byte>, at: nat, x: nat, nx: nat, y: nat, ny: nat)
    requires |m0| == |m1| == |m2| && x <= nx && y <= ny && at + nx <= |m0| && at + x + ny <= |m0|
    requires m1[..at] == m0[..at] && m1[at + nx..] == m0[at + nx..]
    requires m2[..at + x] == m1[..at + x] && m2[at + x + ny..] == m1[at + x + ny..]
    ensures var n := Max(nx, x + ny);
            && at + n <= |m0| && m2[..at] == m0[..at] && m2[at + n..] == m0[at + n..]
            && m2[at..at + x + y] == m1[at..at + x] + m2[at + x..at + x + y]
  {
    var n := Max(nx, x + ny);
    assert m2[..at] == m2[..at + x][..at] && m1[..at] == m1[..at + x][..at];
    assert m2[at..at + x] == m2[..at + x][at..] && m1[at..at + x] == m1[..at + x][at..];
    assert m2[at + n..] == m2[at + x + ny..][n - x - ny..] && m1[at + n..] == m1[at + x + ny..][n - x - ny..];
    assert m0[at + n..] == m0[at + nx..][n - nx..] && m1[at + n..] == m1[at + nx..][n - nx..];
  }

  /** One record written at `at`. */
  lemma EncodedRecord(mem: seq<byte>, mem': seq<byte>, at: nat, it: Item)
    requires ShapedItem(it) && Put(mem, mem', at, EncItem(it)) && at + NeedItem(it) <= |mem| && |EncItem(it)| <= NeedItem(it)
    ensures Shaped([it]) && Encoded(mem, mem', at, [it])
  {
    hide EncItem, NeedItem, ShapedItem;
    OneItem(it);
    var b, n := EncItem(it), NeedItem(it);
    SpliceElsewhere(mem, at, b, 0, at);
    SpliceElsewhere(mem, at, b, at + n, |mem|);
    SpliceAppends(mem, at, b, at);
    assert mem[at..at] + b == b;
  }

  /** A body written behind the reserve, and then its record in front of it. */
  lemma EncodedBody(m0: seq<byte>, m1: seq<byte>, m2: seq<byte>, at: nat, it: Item, need: nat)
    requires ShapedItem(it) && |m1| == |m0| && at + NeedItem(it) <= |m0| && |EncItem(it)| <= NeedItem(it)
    requires NeedItem(it) == RESERVE + need
    requires m1[..at + RESERVE] == m0[..at + RESERVE] && m1[at + RESERVE + need..] == m0[at + RESERVE + need..]
    requires Put(m1, m2, at, EncItem(it))
    ensures Shaped([it]) && Encoded(m0, m2, at, [it])
  {
    hide EncItem, NeedItem, ShapedItem;
    EncodedRecord(m1, m2, at, it);
    OneItem(it);
    assert m1[..at] == m1[..at + RESERVE][..at] && m0[..at] == m0[..at + RESERVE][..at];
  }

  lemma OneItem(it: Item)
    requires ShapedItem(it)
    ensures Shaped([it]) && Enc([it]) == EncItem(it) && Dry([it]) == DryItem(it)
    ensures Need([it]) == Max(NeedItem(it), |EncItem(it)|)
  {
    hide EncItem, DryItem, NeedItem, ShapedItem;
    assert [it][0] == it && [it][1..] == [];
    assert Enc([it]) == EncItem(it) + [];
  }

  // ---- room for each part ----

  lemma {:induction false} FieldsRoom(descs: Descs, m: nat, obj: PyObj, i: nat, n: nat)
    requires Encodable(descs, m, obj) && i < n <= |FieldsOf(descs, m)|
    requires FieldsOf(descs, m)[i].name in obj.d
    ensures var before := FieldsItems(descs, m, obj, i);
            var items := FieldItems(descs, FieldsOf(descs, m)[i], obj.d[FieldsOf(descs, m)[i].name]);
            && |Enc(before)| + Need(items) <= Need(FieldsItems(descs, m, obj, n))
            && Dry(items) <= Dry(FieldsItems(descs, m, obj, n))
    decreases n
  {
    hide Enc, Need, Dry, Shaped;
    var f := FieldsOf(descs, m)[n - 1];
    var before := FieldsItems(descs, m, obj, n - 1);
    if i < n - 1 {
      FieldsRoom(descs, m, obj, i, n - 1);
    }
    if f.name in obj.d {
      NeedConcat(before, FieldItems(descs, f, obj.d[f.name]));
      DryConcat(before, FieldItems(descs, f, obj.d[f.name]));
    }
  }

  lemma {:induction false} ValuesRoom(descs: Descs, f: Field, x: PyObj, j: nat, n: nat)
    requires Suits(descs, f, x) && !IsPackedRepeated(f) && j < n <= Count(x)
    ensures var items := ValueItems(descs, f, x, j + 1);
            && |items| == j + 1 && items[..j] == ValueItems(descs, f, x, j)
            && (if f.typ.Message? then items[j] == Nested(f, ItemsOf(descs, f.msg, Element(x, j)))
                else items[j] == Single(f, Element(x, j).v))
            && ShapedItem(items[j])
            && |Enc(ValueItems(descs, f, x, j))| + NeedItem(items[j]) <= Need(ValueItems(descs, f, x, n))
            && DryItem(items[j]) <= Dry(ValueItems(descs, f, x, n))
    decreases n
  {
    hide Enc, Need, Dry, Encodable, EncItem, NeedItem, DryItem, ItemsOf;
    var before, all := ValueItems(descs, f, x, n - 1), ValueItems(descs, f, x, n);
    var it := all[|all| - 1];
    assert all == before + [it];
    assert ShapedItem(it) by { assert ShapedItem(all[|all| - 1]); }
    OneItem(it);
    NeedConcat(before, [it]);
    DryConcat(before, [it]);
    if j < n - 1 {
      ValuesRoom(descs, f, x, j, n - 1);
    }
  }

  // ---- the object encoder ----

  /** Encodes an object as a message of kind `m` at `at`. Without a buffer it returns the dry-run size; with one
      it returns the length of the encoding it has written, having touched nothing outside the tree's need. */
  method ObjectEncode(enc: Encoder2, descs: Descs, m: nat, obj: PyObj, buf: array?<byte>, at: nat) returns (len: nat)
    requires !enc.packed && Encodable(descs, m, obj) && Dry(ItemsOf(descs, m, obj)) < TWO35
    requires buf != null ==> at + Need(ItemsOf(descs, m, obj)) <= buf.Length
    modifies enc, Footprint(buf)
    ensures !enc.packed
    ensures buf == null ==> len == Dry(ItemsOf(descs, m, obj))
    ensures buf != null ==> len == |Enc(ItemsOf(descs, m, obj))|
                            && Encoded(old(Contents(buf)), Contents(buf), at, ItemsOf(descs, m, obj))
    decreases obj, 0
  {
    hide Enc, Need, Dry, Shaped, Encoded, Put, FieldItems;
    ghost var mem := Contents(buf);
    var fields := FieldsOf(descs, m);
    len := 0;
    var extra := 0;
    NothingEncoded(mem, at);
    for i := 0 to |fields|
      invariant !enc.packed
      invariant buf == null ==> len + extra == Dry(FieldsItems(descs, m, obj, i))
      invariant buf != null ==> len == |Enc(FieldsItems(descs, m, obj, i))|
                                && Encoded(mem, Contents(buf), at, FieldsItems(descs, m, obj, i))
    {
      if fields[i].name in obj.d {
        ghost var before, mem1 := FieldsItems(descs, m, obj, i), Contents(buf);
        ghost var items := FieldItems(descs, fields[i], obj.d[fields[i].name]);
        FieldsRoom(descs, m, obj, i, |fields|);
        var fieldLen, fieldExtra := FieldEncode(enc, descs, fields[i], obj.d[fields[i].name], buf, at + len);
        EncConcat(before, items);
        DryConcat(before, items);
        if buf != null { EncodedThen(mem, mem1, Contents(buf), at, before, items); }
        len, extra := len + fieldLen, extra + fieldExtra;
      }
    }
    if buf == null {
      len := len + extra;
    }
  }

  lemma NothingEncoded(mem: seq<byte>, at: nat)
    ensures Enc([]) == [] && Dry([]) == 0
    ensures at <= |mem| ==> Encoded(mem, mem, at, [])
  {
  }

  /** Encodes the values of a field: a packed field's behind a reserve, then key, length and values together. */
  method FieldEncode(enc: Encoder2, descs: Descs, f: Field, x: PyObj, buf: array?<byte>, at: nat)
    returns (len: nat, extra: nat)
    requires !enc.packed && Suits(descs, f, x) && Dry(FieldItems(descs, f, x)) < TWO35
    requires buf != null ==> at + Need(FieldItems(descs, f, x)) <= buf.Length
    modifies enc, Footprint(buf)
    ensures !enc.packed
    ensures buf == null ==> len + extra == Dry(FieldItems(descs, f, x))
    ensures buf != null ==> len == |Enc(FieldItems(descs, f, x))|
                            && Encoded(old(Contents(buf)), Contents(buf), at, FieldItems(descs, f, x))
    decreases x, 3
  {
    hide Enc, Need, Dry, Shaped, Encoded, Put, EncWire;
    if !IsPackedRepeated(f) {
      len, extra := ValuesEncode(enc, descs, f, x, buf, at);
      return;
    }
    ghost var vs := PackedValues(descs, f, x, Count(x));
    ghost var it := Packed(f, vs);
    ghost var mem := Contents(buf);
    PackedRoom(f, vs);
    enc.PackedStart(f);
    extra := RESERVE;
    var bodyLen := ElementsEncode(enc, descs, f, x, buf, at + RESERVE);
    enc.PackedEnd();
    ghost var mem1 := Contents(buf);
    len := enc.AddField(f, Region(at + RESERVE, bodyLen), buf, at);
    if buf != null {
      PutAround(mem, mem1, at + RESERVE, EncValues(f.typ, vs));
      EncodedBody(mem, mem1, Contents(buf), at, it, |EncValues(f.typ, vs)|);
    }
  }

  /** What a packed field takes. */
  lemma PackedRoom(f: Field, vs: seq<Value>)
    requires PackedField(f) && FitAll(f.typ, vs)
    ensures var it, n := Packed(f, vs), |EncValues(f.typ, vs)|;
            && ShapedItem(it) && Shaped([it]) && Enc([it]) == EncItem(it)
            && NeedItem(it) == RESERVE + n && EncItem(it) == Record(f, WString(EncValues(f.typ, vs)))
            && |EncItem(it)| == |Varint(Key(f, WtString))| + |Varint(n)| + n
            && Dry([it]) == RESERVE + |Varint(Key(f, WtString))| + |Varint(n)| + n
            && (n < TWO35 ==> |Varint(Key(f, WtString))| + |Varint(n)| <= RESERVE
                              && Need([it]) == NeedItem(it) && |EncItem(it)| <= NeedItem(it))
  {
    OneItem(Packed(f, vs));
    if |EncValues(f.typ, vs)| < TWO35 { HeaderFitsReserve(f, |EncValues(f.typ, vs)|); }
  }

  lemma PutAround(mem: seq<byte>, mem': seq<byte>, at: nat, b: seq<byte>)
    requires Put(mem, mem', at, b)
    ensures |mem'| == |mem| && mem'[..at] == mem[..at] && mem'[at + |b|..] == mem[at + |b|..]
    ensures mem'[at..at + |b|] == b
  {
  }

  /** Encodes the elements of a packed field, one after the other and without keys. */
  method ElementsEncode(enc: Encoder2, descs: Descs, f: Field, x: PyObj, buf: array?<byte>, at: nat) returns (len: nat)
    requires enc.packed && Suits(descs, f, x) && PackedField(f)
    requires buf != null ==> at + |EncValues(f.typ, PackedValues(descs, f, x, Count(x)))| <= buf.Length
    modifies Footprint(buf)
    ensures len == |EncValues(f.typ, PackedValues(descs, f, x, Count(x)))|
    ensures buf != null ==> Put(old(Contents(buf)), Contents(buf), at, EncValues(f.typ, PackedValues(descs, f, x, Count(x))))
  {
    hide Put, EncWire, ToWire, Fits;
    ghost var mem := Contents(buf);
    len := 0;
    if buf != null { NothingPut(mem, at); }
    for j := 0 to Count(x)
      invariant len == |EncValues(f.typ, PackedValues(descs, f, x, j))|
      invariant buf != null ==> Put(mem, Contents(buf), at, EncValues(f.typ, PackedValues(descs, f, x, j)))
    {
      ghost var before, mem1 := PackedValues(descs, f, x, j), Contents(buf);
      var v := Element(x, j).v;
      ElementsRoom(descs, f, x, j, Count(x));
      var valueLen := enc.AddField(f, Direct(v), buf, at + len);
      if buf != null {
        PutThen(mem, mem1, Contents(buf), at, EncValues(f.typ, before), EncWire(ToWire(f.typ, v)));
      }
      len := len + valueLen;
    }
  }

  lemma NothingPut(mem: seq<byte>, at: nat)
    requires at <= |mem|
    ensures Put(mem, mem, at, [])
  {
  }

  lemma {:induction false} ElementsRoom(descs: Descs, f: Field, x: PyObj, j: nat, n: nat)
    requires Suits(descs, f, x) && PackedField(f) && j < n <= Count(x)
    ensures EncValues(f.typ, PackedValues(descs, f, x, j + 1))
            == EncValues(f.typ, PackedValues(descs, f, x, j)) + EncWire(ToWire(f.typ, Element(x, j).v))
    ensures |EncValues(f.typ, PackedValues(descs, f, x, j + 1))| <= |EncValues(f.typ, PackedValues(descs, f, x, n))|
    decreases n
  {
    hide EncWire, ToWire, Fits;
    var before, v := PackedValues(descs, f, x, n - 1), Element(x, n - 1).v;
    FitAllConcat(f.typ, before, [v]);
    EncValuesConcat(f.typ, before, [v]);
    assert [v][1..] == [];
    assert EncValues(f.typ, [v]) == EncWire(ToWire(f.typ, v));
    if j < n - 1 {
      ElementsRoom(descs, f, x, j, n - 1);
    }
  }

  /** Encodes the values of a field that is not packed; a nested message goes behind a reserve first. */
  method ValuesEncode(enc: Encoder2, descs: Descs, f: Field, x: PyObj, buf: array?<byte>, at: nat)
    returns (len: nat, extra: nat)
    requires !enc.packed && Suits(descs, f, x) && !IsPackedRepeated(f)
    requires Dry(ValueItems(descs, f, x, Count(x))) < TWO35
    requires buf != null ==> at + Need(ValueItems(descs, f, x, Count(x))) <= buf.Length
    modifies enc, Footprint(buf)
    ensures !enc.packed
    ensures buf == null ==> len + extra == Dry(ValueItems(descs, f, x, Count(x)))
    ensures buf != null ==> len == |Enc(ValueItems(descs, f, x, Count(x)))|
                            && Encoded(old(Contents(buf)), Contents(buf), at, ValueItems(descs, f, x, Count(x)))
    decreases x, 2
  {
    hide Enc, Need, Dry, Shaped, Encoded, Put, EncItem, NeedItem, DryItem, ItemsOf;
    ghost var mem := Contents(buf);
    len, extra := 0, 0;
    assert ValueItems(descs, f, x, 0) == [];
    hide ValueItems;
    NothingEncoded(mem, at);
    for j := 0 to Count(x)
      invariant !enc.packed
      invariant buf == null ==> len + extra == Dry(ValueItems(descs, f, x, j))
      invariant buf != null ==> len == |Enc(ValueItems(descs, f, x, j))|
                                && Encoded(mem, Contents(buf), at, ValueItems(descs, f, x, j))
    {
      ghost var before, after := ValueItems(descs, f, x, j), ValueItems(descs, f, x, j + 1);
      ghost var it, mem1 := after[j], Contents(buf);
      ValuesRoom(descs, f, x, j, Count(x));
      assert after == before + [it];
      var valueLen, valueExtra := ValueEncode(enc, descs, f, Element(x, j), it, buf, at + len);
      OneItem(it);
      EncConcat(before, [it]);
      DryConcat(before, [it]);
      if buf != null { EncodedThen(mem, mem1, Contents(buf), at, before, [it]); }
      len, extra := len + valueLen, extra + valueExtra;
    }
  }

  /** Encodes one value of a field that is not packed. */
  method ValueEncode(enc: Encoder2, descs: Descs, f: Field, v: PyObj, ghost it: Item, buf: array?<byte>, at: nat)
    returns (len: nat, extra: nat)
    requires !enc.packed && !IsPackedRepeated(f)
    requires if f.typ.Message? then Encodable(descs, f.msg, v) && it == Nested(f, ItemsOf(descs, f.msg, v))
             else v.PyScalar? && Fits(f.typ, v.v) && it == Single(f, v.v)
    requires ShapedItem(it) && DryItem(it) < TWO35
    requires buf != null ==> at + NeedItem(it) <= buf.Length
    modifies enc, Footprint(buf)
    ensures !enc.packed
    ensures buf == null ==> len + extra == DryItem(it)
    ensures buf != null ==> len == |EncItem(it)| && Shaped([it])
                            && Encoded(old(Contents(buf)), Contents(buf), at, [it])
    decreases v, 1
  {
    hide Enc, Need, Dry, Shaped, Encoded, Put, EncWire, ToWire, Fits, ItemsOf, Encodable;
    ghost var mem := Contents(buf);
    OneItem(it);
    if f.typ.Message? {
      ghost var body := ItemsOf(descs, f.msg, v);
      NestedRoom(f, body);
      extra := RESERVE;
      var nestedLen := ObjectEncode(enc, descs, f.msg, v, buf, at + RESERVE);
      ghost var mem1 := Contents(buf);
      if buf != null { EncodedAround(mem, mem1, at + RESERVE, body); }
      len := enc.AddField(f, Region(at + RESERVE, nestedLen), buf, at);
      if buf != null { EncodedBody(mem, mem1, Contents(buf), at, it, Need(body)); }
    } else {
      extra := 0;
      len := enc.AddField(f, Direct(v.v), buf, at);
      if buf != null { EncodedRecord(mem, Contents(buf), at, it); }
    }
  }

  /** What a nested message takes. */
  lemma NestedRoom(f: Field, body: seq<Item>)
    requires Shaped(body) && ShapedItem(Nested(f, body))
    ensures var it := Nested(f, body);
            && NeedItem(it) == RESERVE + Need(body) && EncItem(it) == Record(f, WString(Enc(body)))
            && |EncItem(it)| == |Varint(Key(f, WtString))| + |Varint(|Enc(body)|)| + |Enc(body)|
            && DryItem(it) == RESERVE + |Varint(Key(f, WtString))| + |Varint(Dry(body))| + Dry(body)
            && |Enc(body)| <= Need(body) <= Dry(body)
            && (Dry(body) < TWO35 ==> |Varint(Key(f, WtString))| + |Varint(|Enc(body)|)| <= RESERVE
                                      && |EncItem(it)| <= NeedItem(it))
  {
    EncWithinNeed(body);
    DrySuffices(body);
    if Dry(body) < TWO35 { HeaderFitsReserve(f, |Enc(body)|); }
  }

  lemma EncodedAround(mem: seq<byte>, mem': seq<byte>, at: nat, items: seq<Item>)
    requires Shaped(items) && Encoded(mem, mem', at, items)
    ensures |mem'| == |mem| && at + Need(items) <= |mem| && |Enc(items)| <= Need(items)
    ensures mem'[..at] == mem[..at] && mem'[at + Need(items)..] == mem[at + Need(items)..]
    ensures mem'[at..at + |Enc(items)|] == Enc(items)
  {
  }

  /** The two passes: the first sizes the buffer, the second encodes into it. The buffer is always large enough,
      and the result is the encoding of the object's tree. */
  method Encode(enc: Encoder2, descs: Descs, m: nat, obj: PyObj) returns (bytes: seq<byte>)
    requires Encodable(descs, m, obj) && Dry(ItemsOf(descs, m, obj)) < TWO35
    modifies enc
    ensures bytes == Enc(ItemsOf(descs, m, obj))
  {
    hide Enc, Need, Dry, ItemsOf, Encodable;
    enc.packed := false;
    var size := ObjectEncode(enc, descs, m, obj, null, 0);
    var buf := new byte[size](_ => 0);
    DrySuffices(ItemsOf(descs, m, obj));
    enc.packed := false;
    var len := ObjectEncode(enc, descs, m, obj, buf, 0);
    bytes := buf[..len];
  }
}
