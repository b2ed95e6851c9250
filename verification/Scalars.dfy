/** Conversions between scalar values and wire values, at the source's machine widths. */
module Scalars {
  import opened Wire
  import opened Schema

  /** Which values a field of type `t` can hold. Bools and enums are C ints; a message's value is its
      already encoded body. */
  predicate Fits(t: Type, v: Value) {
    match t
    case Double => v.Num? && 0 <= v.n < TWO64
    case Float => v.Num? && 0 <= v.n < TWO32
    case UInt32 => v.Num? && 0 <= v.n < TWO32
    case Fixed32 => v.Num? && 0 <= v.n < TWO32
    case UInt64 => v.Num? && 0 <= v.n < TWO64
    case Fixed64 => v.Num? && 0 <= v.n < TWO64
    case Int32 => v.Num? && -TWO31 <= v.n < TWO31
    case SInt32 => v.Num? && -TWO31 <= v.n < TWO31
    case SFixed32 => v.Num? && -TWO31 <= v.n < TWO31
    case Bool => v.Num? && -TWO31 <= v.n < TWO31
    case Enum => v.Num? && -TWO31 <= v.n < TWO31
    case Int64 => v.Num? && -TWO63 <= v.n < TWO63
    case SInt64 => v.Num? && -TWO63 <= v.n < TWO63
    case SFixed64 => v.Num? && -TWO63 <= v.n < TWO63
    case String => v.Str? && |v.data| < TWO64
    case Bytes => v.Str? && |v.data| < TWO64
    case Message => v.Str? && |v.data| < TWO64
  }

  // Conversions to a narrower or unsigned C integer type.

  function ToU32(x: int): (r: u32) { x % TWO32 }

  function ToU64(x: int): (r: u64) { x % TWO64 }

  function ToS32(x: int): (r: int)
    ensures -TWO31 <= r < TWO31
  {
    if x % TWO32 < TWO31 then x % TWO32 else x % TWO32 - TWO32
  }

  function ToS64(x: int): (r: int)
    ensures -TWO63 <= r < TWO63
  {
    if x % TWO64 < TWO63 then x % TWO64 else x % TWO64 - TWO64
  }

  /** Exclusive or with a sign mask: `^ 0` leaves the operand, `^ -1` complements every bit. */
  function XorMask(x: int, negative: bool): int {
    if negative then -x - 1 else x
  }

  /** The value put on the wire: `(x << 1) ^ (x >> 31)` and its 64-bit form for the zig-zag types, sign
      extension to 64 bits for the other signed varints. */
  function ToWire(t: Type, v: Value): (w: WireValue)
    requires Fits(t, v)
    ensures WireTypeOf(w) == FieldWireType(t)
    ensures w.WString? ==> |w.s| < TWO64
  {
    match t
    case Double => W64(v.n)
    case Float => W32(v.n)
    case Int32 => WVarint(ToU64(v.n))
    case UInt32 => WVarint(v.n)
    case SInt32 => WVarint(ToU32(XorMask(ToS32(2 * v.n), v.n < 0)))
    case Int64 => WVarint(ToU64(v.n))
    case UInt64 => WVarint(v.n)
    case SInt64 => WVarint(ToU64(XorMask(ToS64(2 * v.n), v.n < 0)))
    case Fixed32 => W32(v.n)
    case Fixed64 => W64(v.n)
    case SFixed32 => W32(ToU32(v.n))
    case SFixed64 => W64(ToU64(v.n))
    case Bool => WVarint(ToU64(v.n))
    case Enum => WVarint(ToU64(v.n))
    case String => WString(v.data)
    case Bytes => WString(v.data)
    case Message => WString(v.data)
  }

  /** The value handed to the field handler. A wider varint is truncated to the field's width. */
  function FromWire(t: Type, w: WireValue): (v: Value)
    requires WireTypeOf(w) == FieldWireType(t)
    requires w.WString? ==> |w.s| < TWO64
    ensures Fits(t, v)
  {
    match t
    case Double => Num(w.w)
    case Float => Num(w.d)
    case Int32 => Num(ToS32(w.v))
    case Int64 => Num(ToS64(w.v))
    case UInt32 => Num(ToU32(w.v))
    case UInt64 => Num(w.v)
    case SInt32 => Num(ToS32(XorMask(w.v / 2, w.v % 2 == 1)))
    case SInt64 => Num(ToS64(XorMask(w.v / 2, w.v % 2 == 1)))
    case Fixed32 => Num(w.d)
    case Fixed64 => Num(w.w)
    case SFixed32 => Num(ToS32(w.d))
    case SFixed64 => Num(ToS64(w.w))
    case Bool => Num(ToS32(w.v))
    case Enum => Num(ToS32(w.v))
    case String => Str(w.s)
    case Bytes => Str(w.s)
    case Message => Str(w.s)
  }

  lemma ZigZag32(n: int)
    requires -TWO31 <= n < TWO31
    ensures ToU32(XorMask(ToS32(2 * n), n < 0)) == if n < 0 then -2 * n - 1 else 2 * n
  {
    if n < -0x4000_0000 || n >= 0x4000_0000 {
      assert (2 * n) % TWO32 == if n < 0 then 2 * n + TWO32 else 2 * n;
    }
  }

  lemma ZigZag64(n: int)
    requires -TWO63 <= n < TWO63
    ensures ToU64(XorMask(ToS64(2 * n), n < 0)) == if n < 0 then -2 * n - 1 else 2 * n
  {
    if n < 0 {
      assert (2 * n) % TWO64 == 2 * n + TWO64;
    } else {
      assert (2 * n) % TWO64 == 2 * n;
    }
  }

  lemma UnZigZag(n: int)
    ensures var z := if n < 0 then -2 * n - 1 else 2 * n;
            XorMask(z / 2, z % 2 == 1) == n
  {
  }

  lemma NarrowBack32(n: int)
    requires -TWO31 <= n < TWO31
    ensures ToS32(n) == n && ToS32(ToU32(n)) == n && ToS32(ToU64(n)) == n
  {
    assert n % TWO32 == if n < 0 then n + TWO32 else n;
    assert n % TWO64 == if n < 0 then n + TWO64 else n;
    assert TWO64 % TWO32 == 0;
  }

  lemma NarrowBack64(n: int)
    requires -TWO63 <= n < TWO63
    ensures ToS64(n) == n && ToS64(ToU64(n)) == n
  {
    assert n % TWO64 == if n < 0 then n + TWO64 else n;
  }

  /** Every value of every scalar type survives the conversion to the wire and back. */
  lemma ScalarRoundTrip(t: Type, v: Value)
    requires Fits(t, v)
    ensures FromWire(t, ToWire(t, v)) == v
  {
    if v.Num? {
      if -TWO31 <= v.n < TWO31 { NarrowBack32(v.n); }
      if -TWO63 <= v.n < TWO63 { NarrowBack64(v.n); }
      if 0 <= v.n < TWO32 { UnsignedBack32(v.n); }
      UnZigZag(v.n);
      if t.SInt32? {
        ZigZag32(v.n);
      } else if t.SInt64? {
        ZigZag64(v.n);
      }
      hide ToS32, ToS64, ToU32, ToU64, XorMask;
    }
  }

  /** The number written, for every type: varints hold signed numbers in 64-bit two's complement whatever their
      width, zig-zag ones the doubled magnitude, and fixed words two's complement of their own width. */
  lemma WireNumber(t: Type, v: Value)
    requires Fits(t, v)
    ensures t in {Int32, Int64, Bool, Enum, UInt32, UInt64} ==>
              ToWire(t, v) == WVarint(if v.n < 0 then v.n + 0x1_0000_0000_0000_0000 else v.n)
    ensures t in {SInt32, SInt64} ==> ToWire(t, v) == WVarint(if v.n < 0 then -2 * v.n - 1 else 2 * v.n)
    ensures t in {Float, Fixed32, SFixed32} ==> ToWire(t, v) == W32(if v.n < 0 then v.n + 0x1_0000_0000 else v.n)
    ensures t in {Double, Fixed64, SFixed64} ==>
              ToWire(t, v) == W64(if v.n < 0 then v.n + 0x1_0000_0000_0000_0000 else v.n)
    ensures t in {String, Bytes, Message} ==> ToWire(t, v) == WString(v.data)
  {
    if v.Num? {
      if t.SInt32? { ZigZag32(v.n); }
      if t.SInt64? { ZigZag64(v.n); }
      TwosComplement(v.n);
      hide ToU32, ToU64, ToS32, ToS64, XorMask;
    }
  }

  lemma TwosComplement(n: int)
    ensures -TWO31 <= n < TWO32 ==> ToU32(n) == if n < 0 then n + TWO32 else n
    ensures -TWO63 <= n < TWO64 ==> ToU64(n) == if n < 0 then n + TWO64 else n
  {
  }

  /** The value read, for every wire value that may stand for the type: the one number of the field's C type that is
      congruent to it, and for the zig-zag types to half of it, complemented when it is odd. */
  lemma ReadNumber(t: Type, w: WireValue)
    requires WireTypeOf(w) == FieldWireType(t) && (w.WString? ==> |w.s| < TWO64)
    ensures t in {Int32, Bool, Enum} ==> Narrowed(FromWire(t, w).n, w.v, -0x8000_0000, 0x1_0000_0000)
    ensures t == UInt32 ==> Narrowed(FromWire(t, w).n, w.v, 0, 0x1_0000_0000)
    ensures t == SInt32 ==>
              Narrowed(FromWire(t, w).n, if w.v % 2 == 0 then w.v / 2 else -(w.v / 2) - 1, -0x8000_0000, 0x1_0000_0000)
    ensures t == Int64 ==> Narrowed(FromWire(t, w).n, w.v, -0x8000_0000_0000_0000, 0x1_0000_0000_0000_0000)
    ensures t == SInt64 ==> FromWire(t, w).n == if w.v % 2 == 0 then w.v / 2 else -(w.v / 2) - 1
    ensures t == UInt64 ==> FromWire(t, w).n == w.v
    ensures t in {Float, Fixed32} ==> FromWire(t, w).n == w.d
    ensures t == SFixed32 ==> Narrowed(FromWire(t, w).n, w.d, -0x8000_0000, 0x1_0000_0000)
    ensures t in {Double, Fixed64} ==> FromWire(t, w).n == w.w
    ensures t == SFixed64 ==> Narrowed(FromWire(t, w).n, w.w, -0x8000_0000_0000_0000, 0x1_0000_0000_0000_0000)
    ensures t in {String, Bytes, Message} ==> FromWire(t, w) == Str(w.s)
  {
    match w
    case WVarint(v) =>
      CutTo32(v);
      CutTo64(v);
      CutTo32(XorMask(v / 2, v % 2 == 1));
      if t.SInt64? { NarrowBack64(XorMask(v / 2, v % 2 == 1)); }
      hide ToS32, ToS64, ToU32, Narrowed;
    case W32(d) => CutTo32(d);
    case W64(d) => CutTo64(d);
    case WString(_) =>
  }

  /** `n` is the number congruent to `x` among the `size` numbers from `low` on. */
  predicate Narrowed(n: int, x: int, low: int, size: nat)
    requires size > 0
  {
    low <= n < low + size && (x - n) % size == 0
  }

  lemma CutTo32(x: int)
    ensures Narrowed(ToS32(x), x, -TWO31, TWO32) && Narrowed(ToU32(x), x, 0, TWO32)
  {
    Remainder32(x);
    assert x - (x % TWO32 - TWO32) == x - x % TWO32 + TWO32;
  }

  lemma Remainder32(x: int)
    ensures (x - x % TWO32) % TWO32 == 0 && (x - x % TWO32 + TWO32) % TWO32 == 0
  {
  }

  lemma CutTo64(x: int)
    ensures Narrowed(ToS64(x), x, -TWO63, TWO64)
  {
    Remainder64(x);
    assert x - (x % TWO64 - TWO64) == x - x % TWO64 + TWO64;
  }

  lemma Remainder64(x: int)
    ensures (x - x % TWO64) % TWO64 == 0 && (x - x % TWO64 + TWO64) % TWO64 == 0
  {
  }

  lemma UnsignedBack32(n: int)
    requires 0 <= n < TWO32
    ensures ToU32(n) == n
  {
  }

  /** Zig-zag is what keeps small magnitudes small: `|n| < 2^(7k-1)` exactly when `k` bytes suffice. A negative
      plain int32 or int64 always takes ten. */
  lemma SignedLengths(n: int, k: nat)
    requires -TWO63 <= n < TWO63 && k >= 1
    ensures |Varint(ToWire(SInt64, Num(n)).v)| <= k <==> 0 <= 2 * n + Pow128(k) && 2 * n < Pow128(k)
    ensures n < 0 ==> |Varint(ToWire(Int64, Num(n)).v)| == 10
    ensures -TWO31 <= n < 0 ==> |Varint(ToWire(Int32, Num(n)).v)| == 10
  {
    hide Varint;
    ZigZag64(n);
    VarintLength(ToWire(SInt64, Num(n)).v, k);
    PowEven(k);
    if n < 0 {
      NegativeIsLarge(n);
      TenBytes(ToU64(n));
    }
  }

  lemma PowEven(k: nat)
    requires k >= 1
    ensures Pow128(k) % 2 == 0
  {
    assert Pow128(k) == 128 * Pow128(k - 1);
  }

  /** Sign extension sets the highest bit. */
  lemma NegativeIsLarge(n: int)
    requires -TWO63 <= n < 0
    ensures ToU64(n) == n + TWO64 >= TWO63
  {
  }

  lemma TenBytes(v: u64)
    requires v >= TWO63
    ensures |Varint(v)| == 10
  {
    hide Varint;
    VarintLength(v, 9);
    Pow128Nine();
    VarintBounds(v);
  }

  /** A negative number that is no zig-zag type's and no fixed word's takes ten bytes, bools and enums included. */
  lemma NegativeTakesTen(t: Type, v: Value)
    requires t in {Int32, Int64, Bool, Enum} && Fits(t, v) && v.n < 0
    ensures |Varint(ToWire(t, v).v)| == 10
  {
    hide Varint, ToWire;
    WireNumber(t, v);
    TenBytes(v.n + TWO64);
  }
}
