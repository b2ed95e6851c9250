/** Bytes, base-128 varints and little-endian words: the bytes every other module reads and writes.
    Values are kept as integers; the source's machine widths are written out as `% TWO32` and `% TWO64`. */
module Wire {
  const TWO31: int := 0x8000_0000
  const TWO32: int := 0x1_0000_0000
  const TWO35: int := 0x8_0000_0000
  const TWO63: int := 0x8000_0000_0000_0000
  const TWO64: int := 0x1_0000_0000_0000_0000

  type byte = x: int | 0 <= x < 256
  type u32 = x: int | 0 <= x < TWO32
  type u64 = x: int | 0 <= x < TWO64

  // ---- base-128 varints ----

  /** The varint of `v`: seven bits a byte, low bits first, the high bit set on every byte but the last. */
  function Varint(v: nat): (s: seq<byte>)
    ensures |s| >= 1
  {
    if v < 128 then [v] else [128 + v % 128] + Varint(v / 128)
  }

  lemma OneByte(v: nat)
    requires v < 128
    ensures Varint(v) == [v]
  {
  }

  function Pow128(k: nat): (p: nat)
    ensures p >= 1
  {
    if k == 0 then 1 else 128 * Pow128(k - 1)
  }

  /** How many bytes a varint takes, exactly: at most `k` just when the value has at most `7 * k` bits. */
  lemma {:induction false} VarintLength(v: nat, k: nat)
    requires k >= 1
    ensures |Varint(v)| <= k <==> v < Pow128(k)
    decreases k
  {
    assert Pow128(k) == 128 * Pow128(k - 1);
    if v >= 128 && k > 1 {
      VarintLength(v / 128, k - 1);
    }
  }

  lemma Pow128Nine()
    ensures Pow128(9) == TWO63
  {
    assert Pow128(3) == 0x20_0000;
    assert Pow128(6) == 0x400_0000_0000;
  }

  lemma VarintBounds(v: nat)
    ensures v < TWO32 ==> |Varint(v)| <= 5
    ensures |Varint(v)| <= 5 <==> v < TWO35
    ensures v < TWO64 ==> |Varint(v)| <= 10
  {
    VarintLength(v, 5);
    VarintLength(v, 10);
    assert Pow128(5) == TWO35 by { Pow128Five(); }
    assert Pow128(10) == 64 * TWO64 by { Pow128Five(); }
  }

  lemma Pow128Five()
    ensures Pow128(5) == TWO35
    ensures Pow128(10) == 64 * TWO64
  {
    Pow128Nine();
    assert Pow128(3) == 0x20_0000;
  }

  lemma {:induction false} VarintMonotone(v: nat, w: nat)
    requires v <= w
    ensures |Varint(v)| <= |Varint(w)|
    decreases w
  {
    if v >= 128 {
      VarintMonotone(v / 128, w / 128);
    }
  }

  /** What a varint read finds: a value and its length, too few bytes, or more than ten bytes. */
  datatype VarintRead = Got(value: nat, used: nat) | Short | TooLong

  /** The bytes of `s` read as digits, `i` bytes of the varint being already consumed. An eleventh byte
      would be shifted by 70 bits, which the source leaves undefined. */
  function Digits(s: seq<byte>, i: nat): (r: VarintRead)
    ensures r.Got? ==> 1 <= r.used <= |s| && r.used + i <= 10
  {
    if s == [] then Short
    else if i >= 10 then TooLong
    else if s[0] < 128 then Got(s[0], 1)
    else match Digits(s[1..], i + 1)
      case Got(v, n) => Got(s[0] - 128 + 128 * v, n + 1)
      case Short => Short
      case TooLong => TooLong
  }

  /** The 64-bit value the decoder reads from the front of `s`. */
  function ReadVarint(s: seq<byte>): (r: VarintRead)
    ensures r.Got? ==> 1 <= r.used <= |s| && r.used <= 10 && r.value < TWO64
  {
    match Digits(s, 0)
    case Got(v, n) => Got(v % TWO64, n)
    case Short => Short
    case TooLong => TooLong
  }

  lemma {:induction false} DigitsOfVarint(v: nat, rest: seq<byte>, i: nat)
    requires |Varint(v)| + i <= 10
    ensures Digits(Varint(v) + rest, i) == Got(v, |Varint(v)|)
    decreases v
  {
    var s := Varint(v) + rest;
    if v >= 128 {
      assert s[1..] == Varint(v / 128) + rest;
      DigitsOfVarint(v / 128, rest, i + 1);
    }
  }

  /** Decoding undoes encoding for every 64-bit value, whatever bytes follow, and consumes exactly the varint. */
  lemma VarintRoundTrip(v: u64, rest: seq<byte>)
    ensures ReadVarint(Varint(v) + rest) == Got(v, |Varint(v)|)
  {
    VarintBounds(v);
    DigitsOfVarint(v, rest, 0);
    hide Varint, Digits;
    assert v % TWO64 == v;
  }

  lemma {:induction false} DigitsOfPrefix(v: nat, k: nat, i: nat)
    requires k < |Varint(v)| && |Varint(v)| + i <= 10
    ensures Digits(Varint(v)[..k], i) == Short
    decreases v
  {
    if v >= 128 && k > 0 {
      assert Varint(v)[..k][1..] == Varint(v / 128)[..k - 1];
      DigitsOfPrefix(v / 128, k - 1, i + 1);
    }
  }

  /** Every strict prefix of a varint is recognised as truncated. */
  lemma VarintTruncated(v: u64, k: nat)
    requires k < |Varint(v)|
    ensures ReadVarint(Varint(v)[..k]) == Short
  {
    VarintBounds(v);
    DigitsOfPrefix(v, k, 0);
  }

  // ---- little-endian words ----

  /** The `k` low bytes of `v`, least significant first. */
  function Le(v: nat, k: nat): (s: seq<byte>)
    ensures |s| == k
  {
    if k == 0 then [] else [v % 256] + Le(v / 256, k - 1)
  }

  function UnLe(s: seq<byte>): (v: nat)
  {
    if s == [] then 0 else s[0] + 256 * UnLe(s[1..])
  }

  function Pow256(k: nat): (p: nat)
    ensures p >= 1
  {
    if k == 0 then 1 else 256 * Pow256(k - 1)
  }

  lemma Pow256Widths()
    ensures Pow256(4) == TWO32 && Pow256(8) == TWO64
  {
    assert Pow256(2) == 0x1_0000;
    assert Pow256(4) == TWO32;
    assert Pow256(6) == 0x1_0000_0000_0000;
  }

  lemma {:induction false} LeRoundTrip(v: nat, k: nat)
    requires v < Pow256(k)
    ensures UnLe(Le(v, k)) == v
    decreases k
  {
    if k > 0 {
      LeRoundTrip(v / 256, k - 1);
      assert Le(v, k)[1..] == Le(v / 256, k - 1);
    }
  }

  lemma {:induction false} UnLeRoundTrip(s: seq<byte>)
    ensures UnLe(s) < Pow256(|s|)
    ensures Le(UnLe(s), |s|) == s
    decreases |s|
  {
    if s != [] {
      UnLeRoundTrip(s[1..]);
      assert UnLe(s) % 256 == s[0] && UnLe(s) / 256 == UnLe(s[1..]);
    }
  }

  // ---- parts in a row ----

  /** All parts, one after the other. */
  function Joined(parts: seq<seq<byte>>): seq<byte> {
    if parts == [] then [] else Joined(parts[..|parts| - 1]) + parts[|parts| - 1]
  }

  lemma JoinedNext(parts: seq<seq<byte>>, part: seq<byte>)
    ensures Joined(parts + [part]) == Joined(parts) + part
  {
    assert (parts + [part])[..|parts|] == parts;
  }
}
