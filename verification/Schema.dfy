/** Descriptors, error codes and field values (types.h, private.h). */
module Schema {
  import opened Wire

  datatype Option<+T> = None | Some(value: T)

  /** The error codes the codec returns. */
  datatype Err = Ok | UnknownField | InvalidField | EndOfBuf

  datatype Label = Optional | Required | Repeated

  datatype Type =
    | Double | Float | Int32 | UInt32 | SInt32 | Int64 | UInt64 | SInt64
    | Fixed32 | Fixed64 | SFixed32 | SFixed64 | Bool | Enum | String | Bytes | Message

  /** A field descriptor. `id` stands for the descriptor's address, by which the encoder compares
      descriptors; `msg` is the index of the nested message's descriptor. */
  datatype Field = Field(id: nat, number: u32, typ: Type, rule: Label, packed: bool, msg: nat, name: string)

  datatype MsgDesc = MsgDesc(fields: seq<Field>)

  /** Message descriptors refer to each other, possibly in cycles, by index. */
  type Descs = seq<MsgDesc>

  function FieldsOf(descs: Descs, m: nat): seq<Field> {
    if m < |descs| then descs[m].fields else []
  }

  predicate IsPackedRepeated(f: Field) {
    f.rule.Repeated? && f.packed
  }

  /** The embedding depth both stacks are dimensioned for. */
  const MAX_DEPTH: nat := 32

  datatype WireType = WtVarint | Wt64Bit | WtString | Wt32Bit

  function WireTypeCode(wt: WireType): nat {
    match wt
    case WtVarint => 0
    case Wt64Bit => 1
    case WtString => 2
    case Wt32Bit => 5
  }

  /** The wire type a field's type is encoded with. */
  function FieldWireType(t: Type): WireType {
    match t
    case Double => Wt64Bit
    case Float => Wt32Bit
    case Int32 => WtVarint
    case Int64 => WtVarint
    case UInt32 => WtVarint
    case UInt64 => WtVarint
    case SInt32 => WtVarint
    case SInt64 => WtVarint
    case Fixed32 => Wt32Bit
    case Fixed64 => Wt64Bit
    case SFixed32 => Wt32Bit
    case SFixed64 => Wt64Bit
    case Bool => WtVarint
    case Enum => WtVarint
    case String => WtString
    case Bytes => WtString
    case Message => WtString
  }

  /** A scalar value: a number (a bit pattern for float and double) or a byte string. */
  datatype Value = Num(n: int) | Str(data: seq<byte>)

  /** A value as it stands on the wire. */
  datatype WireValue = WVarint(v: u64) | W64(w: u64) | WString(s: seq<byte>) | W32(d: u32)

  function WireTypeOf(w: WireValue): WireType {
    match w
    case WVarint(_) => WtVarint
    case W64(_) => Wt64Bit
    case WString(_) => WtString
    case W32(_) => Wt32Bit
  }
}
