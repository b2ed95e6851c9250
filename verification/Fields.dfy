/** What both encoders are handed for a field, and the bytes they make of it. */
module Fields {
  import opened Wire
  import opened Schema
  import opened Scalars
  import opened Format

  /** The value handed to AddField: a value, or the region of the encoder's own array holding an encoded body. */
  datatype Arg = Direct(v: Value) | Region(start: nat, len: nat)

  /** Whether a field is written as an opaque body: a message, or a whole packed field. */
  predicate TakesBody(f: Field, packed: bool) {
    f.typ.Message? || (!packed && IsPackedRepeated(f))
  }

  /** What a caller may pass for a field. */
  predicate ArgOk(f: Field, packed: bool, arg: Arg, size: nat) {
    match arg
    case Direct(v) => if TakesBody(f, packed) then Fits(Message, v) else Fits(f.typ, v)
    case Region(start, len) => TakesBody(f, packed) && start + len <= size && len < TWO64
  }

  /** The wire value written for a field, `mem` being the array's contents. */
  function WireFor(f: Field, packed: bool, arg: Arg, mem: seq<byte>): (w: WireValue)
    requires ArgOk(f, packed, arg, |mem|)
    ensures TakesBody(f, packed) ==> w.WString?
  {
    match arg
    case Direct(v) => if TakesBody(f, packed) then WString(v.data) else ToWire(f.typ, v)
    case Region(start, len) => WString(mem[start..start + len])
  }

  /** How much of a wire value is left behind when there is no room for all of it: a varint fills the room, a fixed word
      is not begun, and of a string there is the length, or what fits of it. */
  function WireKept(w: WireValue, left: nat): nat {
    match w
    case WVarint(_) => left
    case W64(_) => 0
    case W32(_) => 0
    case WString(s) => if left < |Varint(|s|)| then left else |Varint(|s|)|
  }

  /** The same for a field: its key comes first. */
  function FieldKept(f: Field, packed: bool, w: WireValue, left: nat): nat {
    var key := if packed then 0 else |Varint(Key(f, WireTypeOf(w)))|;
    if left < key then left else key + WireKept(w, left - key)
  }

  /** The bytes of a field: inside a packed field the key is left out. */
  function FieldBytes(f: Field, packed: bool, w: WireValue): seq<byte> {
    if packed then EncWire(w) else Record(f, w)
  }
}
