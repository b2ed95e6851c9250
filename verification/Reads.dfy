/** Reading fields at a cursor (the decoder utilities of decoder.c). */
module Reads {
  import opened Wire
  import opened Schema
  import opened Buffers
  import opened Parser

  /** What is left to read at a cursor. */
  function Rest(data: seq<byte>, buf: Buf): seq<byte>
    requires buf.Valid(|data|)
  {
    data[buf.pos..buf.end]
  }

  /** Reads a varint. The source looks at the first byte before any length check, hence the byte required; on
      success the cursor has passed exactly the varint. */
  method DecodeVarint(data: seq<byte>, buf: Buf) returns (err: Err, varint: u64, out: Buf)
    requires buf.Valid(|data|) && buf.Left() >= 1
    requires !ReadVarint(Rest(data, buf)).TooLong?
    ensures match ReadVarint(Rest(data, buf))
            case Got(v, n) => err.Ok? && varint == v && out == buf.(pos := buf.pos + n)
            case Short => err.EndOfBuf?
            case TooLong => false
  {
    hide Shift, OrShifted, Digits, Added;
    ghost var s := Rest(data, buf);
    var i: nat, scale: nat := 0, 1;
    ghost var sum: nat := 0;
    out, varint := buf, 0;
    ShiftNothing(Digits(s, 0));
    assert s[0..] == s;
    while data[out.pos] >= 128 && i < 10
      invariant 0 <= i <= 10 && out == buf.(pos := buf.pos + i) && out.pos < out.end
      invariant varint == sum % TWO64
      invariant Digits(s, 0) == Shift(Digits(s[i..], i), sum, scale, i)
      decreases 10 - i
    {
      assert data[out.pos] == s[i];
      var digit: nat := data[out.pos] % 128;
      DigitsStep(s, i);
      varint := OrShifted(varint, digit, scale);
      if out.end - out.pos < 2 {
        ShiftFails(Digits(s[i..], i), sum, scale, i);
        return EndOfBuf, varint, out;
      }
      ShiftDigit(Digits(s[i + 1..], i + 1), sum, scale, i, digit);
      sum := Added(sum, digit, scale);
      scale := scale * 128;
      i, out := i + 1, out.(pos := out.pos + 1);
    }
    DigitsStep(s, i);
    ShiftLast(Digits(s[i..], i), sum, scale, i);
    varint := OrShifted(varint, data[out.pos] % 128, scale);
    return Ok, varint, out.(pos := out.pos + 1);
  }

  /** What one more byte of a varint decides. */
  lemma DigitsStep(s: seq<byte>, i: nat)
    requires i < |s|
    ensures Digits(s[i..], i) ==
            if i >= 10 then TooLong
            else if s[i] < 128 then Got(s[i], 1)
            else if i + 1 == |s| then Short
            else var r := Digits(s[i + 1..], i + 1);
                 if r.Got? then Got(s[i] % 128 + 128 * r.value, r.used + 1) else r
  {
    assert s[i..][0] == s[i] && s[i..][1..] == s[i + 1..];
  }

  /** `varint |= digit << bitpos` in 64 bits, `scale` being 2^bitpos; the bits are still clear. */
  function OrShifted(varint: u64, digit: nat, scale: nat): u64 {
    (varint + digit * scale) % TWO64
  }

  ghost function Added(sum: nat, digit: nat, scale: nat): nat {
    sum + digit * scale
  }

  /** Digits that follow `i` bytes already read, which are worth `sum`; the next digit is worth `scale`. */
  ghost function Shift(r: VarintRead, sum: nat, scale: nat, i: nat): VarintRead {
    if r.Got? then Got(sum + scale * r.value, r.used + i) else r
  }

  lemma ShiftNothing(r: VarintRead)
    ensures Shift(r, 0, 1, 0) == r
  {
  }

  lemma ShiftFails(r: VarintRead, sum: nat, scale: nat, i: nat)
    requires !r.Got?
    ensures Shift(r, sum, scale, i) == r
  {
  }

  lemma ShiftDigit(r: VarintRead, sum: nat, scale: nat, i: nat, d: nat)
    ensures Shift(if r.Got? then Got(d + 128 * r.value, r.used + 1) else r, sum, scale, i)
            == Shift(r, Added(sum, d, scale), scale * 128, i + 1)
    ensures OrShifted(sum % TWO64, d, scale) == Added(sum, d, scale) % TWO64
  {
    if r.Got? {
      assert scale * (d + 128 * r.value) == d * scale + scale * 128 * r.value;
    }
  }

  lemma ShiftLast(r: VarintRead, sum: nat, scale: nat, i: nat)
    ensures r.Got? ==> Shift(r, sum, scale, i) == Got(Added(sum, r.value, scale), r.used + i)
    ensures r.Got? ==> OrShifted(sum % TWO64, r.value, scale) == Added(sum, r.value, scale) % TWO64
    ensures !r.Got? ==> Shift(r, sum, scale, i) == r
  {
    if r.Got? {
      assert scale * r.value == r.value * scale;
    }
  }

  /** Reads four bytes, low byte first. */
  method Decode32(data: seq<byte>, buf: Buf) returns (err: Err, value: u32, out: Buf)
    requires buf.Valid(|data|)
    ensures err == if buf.Left() < 4 then EndOfBuf else Ok
    ensures err.Ok? ==> value == Word32(Rest(data, buf)) && out == buf.(pos := buf.pos + 4)
  {
    if buf.Left() < 4 {
      return EndOfBuf, 0, buf;
    }
    var p := buf.pos;
    var b0: int, b1: int, b2: int, b3: int := data[p], data[p + 1], data[p + 2], data[p + 3];
    value := b0 + b1 * 0x100 + b2 * 0x1_0000 + b3 * 0x100_0000;
    UnLeFour(Rest(data, buf)[..4]);
    return Ok, value, buf.(pos := buf.pos + 4);
  }

  lemma UnLeFour(s: seq<byte>)
    requires |s| == 4
    ensures var b0: int, b1: int, b2: int, b3: int := s[0], s[1], s[2], s[3];
            UnLe(s) == b0 + b1 * 0x100 + b2 * 0x1_0000 + b3 * 0x100_0000
  {
    assert UnLe(s[3..]) == s[3];
    assert s[2..][1..] == s[3..];
    assert UnLe(s[2..]) == s[2] + 256 * UnLe(s[3..]);
    assert s[1..][1..] == s[2..];
  }

  /** Reads eight bytes, the highest first. */
  method Decode64(data: seq<byte>, buf: Buf) returns (err: Err, value: u64, out: Buf)
    requires buf.Valid(|data|)
    ensures err == if buf.Left() < 8 then EndOfBuf else Ok
    ensures err.Ok? ==> value == Word64(Rest(data, buf)) && out == buf.(pos := buf.pos + 8)
  {
    if buf.Left() < 8 {
      return EndOfBuf, 0, buf;
    }
    ghost var s := Rest(data, buf)[..8];
    var v: nat := 0;
    var i := 8;
    while i > 0
      invariant 0 <= i <= 8 && v == UnLe(s[i..])
    {
      i := i - 1;
      assert s[i..][0] == data[buf.pos + i] && s[i..][1..] == s[i + 1..];
      v := v * 256 + data[buf.pos + i];
    }
    assert s[0..] == s;
    value := Word64(Rest(data, buf));
    assert v == value;
    return Ok, v, buf.(pos := buf.pos + 8);
  }

  lemma SliceSlice<T>(s: seq<T>, lo: nat, hi: nat, n: nat, len: nat)
    requires lo <= hi <= |s| && n + len <= hi - lo
    ensures s[lo..hi][n..n + len] == s[lo + n..lo + n + len]
  {
    var a, b := s[lo..hi][n..n + len], s[lo + n..lo + n + len];
    forall i | 0 <= i < len ensures a[i] == b[i] {
      assert a[i] == s[lo..hi][n + i];
    }
  }

  /** Reads a wire value. An unknown wire type reads nothing. */
  method DecodeWire(data: seq<byte>, buf: Buf, code: nat) returns (err: Err, w: Option<WireValue>, out: Buf)
    requires buf.Valid(|data|)
    requires var r := ReadWire(code, Rest(data, buf)); r.Stop? ==> r.status.Truncated?
    ensures match ReadWire(code, Rest(data, buf))
            case Read(v, k) => err.Ok? && w == Some(v) && out == buf.(pos := buf.pos + k)
            case Stop(_) => err.EndOfBuf?
            case NoValue => err.Ok? && w.None? && out == buf
    ensures err.Ok? && w.Some? && w.value.WString? ==>
              |w.value.s| <= out.pos <= |data| && data[out.pos - |w.value.s|..out.pos] == w.value.s
  {
    hide ReadVarint, Word32, Word64;
    w := None;
    if code == 0 {
      var v;
      err, v, out := DecodeVarint(data, buf);
      w := Some(WVarint(v));
    } else if code == 1 {
      var v;
      err, v, out := Decode64(data, buf);
      w := Some(W64(v));
    } else if code == 2 {
      var len;
      err, len, out := DecodeVarint(data, buf);
      if err.Ok? {
        if len > out.Left() {
          return EndOfBuf, None, out;
        }
        SliceSlice(data, buf.pos, buf.end, out.pos - buf.pos, len);
        w := Some(WString(data[out.pos..out.pos + len]));
        out := out.(pos := out.pos + len);
      }
    } else if code == 5 {
      var v;
      err, v, out := Decode32(data, buf);
      w := Some(W32(v));
    } else {
      err, out := Ok, buf;
    }
  }

  /** Finds the first field with a number. */
  method FindField(fields: seq<Field>, number: nat) returns (r: Option<Field>)
    ensures r == Lookup(fields, number)
  {
    assert fields[0..] == fields;
    for i := 0 to |fields|
      invariant Lookup(fields, number) == Lookup(fields[i..], number)
    {
      assert fields[i..][0] == fields[i] && fields[i..][1..] == fields[i + 1..];
      if fields[i].number == number {
        return Some(fields[i]);
      }
    }
    return None;
  }

  /** Reads a field's key and wire value. The descriptor stays what it was when the number is not declared. */
  method ReadNext(descs: Descs, m: nat, data: seq<byte>, buf: Buf, last: Option<Field>)
    returns (err: Err, fd: Option<Field>, w: Option<WireValue>, out: Buf)
    requires buf.Valid(|data|) && buf.Left() > 0
    requires var h := ReadField(descs, m, Rest(data, buf), last, true); h.Stopped? ==> h.status.Truncated?
    ensures err.Ok? || err.EndOfBuf?
    ensures err.EndOfBuf? <==> ReadField(descs, m, Rest(data, buf), last, true).Stopped?
    ensures err.Ok? && fd.None? ==> last.None?
    ensures err.Ok? ==>
              && out == buf.(pos := out.pos) && buf.pos < out.pos <= buf.end
              && (w.Some? && w.value.WString? ==>
                  |w.value.s| < TWO64 && |w.value.s| < out.pos - buf.pos
                  && data[out.pos - |w.value.s|..out.pos] == w.value.s)
              && ReadField(descs, m, Rest(data, buf), last, true) == Interpret(fd, w, out.pos - buf.pos)
  {
    hide ReadVarint, ReadWire, Lookup, Interpret;
    fd, w := last, None;
    var key;
    err, key, out := DecodeVarint(data, buf);
    if !err.Ok? {
      return;
    }
    assert Rest(data, out) == Rest(data, buf)[out.pos - buf.pos..];
    var number, code := key / 8 % TWO32, key % 8;
    var found := FindField(FieldsOf(descs, m), number);
    if found.Some? {
      fd := found;
    }
    err, w, out := DecodeWire(data, out, code);
  }
}
