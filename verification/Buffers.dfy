/** Byte buffers: the cursor of buf.c, the writers of encoder.c and the copy loops of utils.c. */
module Buffers {
  import opened Wire
  import opened Schema

  /** A cursor over a stretch of an array; pointers are offsets into it. */
  datatype Buf = Buf(base: nat, pos: nat, end: nat) {
    predicate Valid(n: nat) { base <= pos <= end <= n }

    function Used(): (u: nat)
      requires base <= pos
    {
      pos - base
    }

    function Left(): (l: nat)
      requires pos <= end
    {
      end - pos
    }
  }

  function BufInit(data: nat, len: nat): (b: Buf)
    ensures b.Valid(data + len) && b.Used() == 0 && b.Left() == len
  {
    Buf(data, data, data + len)
  }

  /** `mem` with the bytes from `at` on overwritten by `b`. */
  function Splice(mem: seq<byte>, at: nat, b: seq<byte>): (r: seq<byte>)
    requires at + |b| <= |mem|
    ensures |r| == |mem|
    ensures forall i {:trigger r[i]} :: 0 <= i < |mem| ==>
              r[i] == if at <= i < at + |b| then b[i - at] else mem[i]
  {
    mem[..at] + b + mem[at + |b|..]
  }

  /** Two adjacent overwrites are one. */
  lemma SpliceSplice(mem: seq<byte>, at: nat, a: seq<byte>, b: seq<byte>)
    requires at + |a| + |b| <= |mem|
    ensures Splice(Splice(mem, at, a), at + |a|, b) == Splice(mem, at, a + b)
  {
  }

  /** A stretch that ends before an overwrite, or starts after it, is not touched. */
  lemma SpliceElsewhere(mem: seq<byte>, at: nat, b: seq<byte>, lo: nat, hi: nat)
    requires at + |b| <= |mem| && lo <= hi <= |mem|
    requires hi <= at || at + |b| <= lo
    ensures Splice(mem, at, b)[lo..hi] == mem[lo..hi]
  {
  }

  /** What an overwrite at the end of a stretch appends to it. */
  lemma SpliceAppends(mem: seq<byte>, at: nat, b: seq<byte>, lo: nat)
    requires lo <= at && at + |b| <= |mem|
    ensures Splice(mem, at, b)[lo..at + |b|] == mem[lo..at] + b
  {
  }

  /** What a writer did: it wrote as much of `b` as it returned the cursor past, and all of it exactly when
      there was room for all of it. */
  ghost predicate Wrote(mem: seq<byte>, mem': seq<byte>, buf: Buf, out: Buf, b: seq<byte>, err: Err) {
    && buf.Valid(|mem|)
    && out == buf.(pos := out.pos)
    && buf.pos <= out.pos <= buf.end
    && out.pos - buf.pos <= |b|
    && mem' == Splice(mem, buf.pos, b[..out.pos - buf.pos])
    && (if |b| <= buf.Left() then err.Ok? && out.pos == buf.pos + |b| else err.EndOfBuf?)
  }

  /** One write after another that succeeded. */
  lemma WroteThen(m0: seq<byte>, m1: seq<byte>, m2: seq<byte>, b0: Buf, b1: Buf, b2: Buf,
                  x: seq<byte>, y: seq<byte>, err: Err)
    requires Wrote(m0, m1, b0, b1, x, Ok) && Wrote(m1, m2, b1, b2, y, err)
    ensures Wrote(m0, m2, b0, b2, x + y, err)
  {
    var n := b2.pos - b1.pos;
    assert x[..|x|] == x;
    SpliceSplice(m0, b0.pos, x, y[..n]);
    assert (x + y)[..|x| + n] == x + y[..n];
  }

  /** A write that failed fails for anything longer. */
  lemma WroteShort(m0: seq<byte>, m1: seq<byte>, b0: Buf, b1: Buf, x: seq<byte>, y: seq<byte>, err: Err)
    requires Wrote(m0, m1, b0, b1, x, err) && !err.Ok?
    ensures Wrote(m0, m1, b0, b1, x + y, err) && b0.Left() < |x|
  {
    var n := b1.pos - b0.pos;
    assert (x + y)[..n] == x[..n];
  }

  /** Writes a varint at the cursor, a byte at a time. When room runs out, the bytes that did fit stay behind. */
  method PutVarint(data: array<byte>, buf: Buf, varint: u64) returns (err: Err, out: Buf)
    requires buf.Valid(data.Length)
    modifies data
    ensures Wrote(old(data[..]), data[..], buf, out, Varint(varint), err)
    ensures !err.Ok? ==> out == buf.(pos := buf.end)
  {
    hide Splice, Varint;
    ghost var goal, mem := Varint(varint), data[..];
    NothingWritten(mem, buf.pos, goal);
    assert goal[0..] == goal;
    var v := varint;
    out := buf;
    var more := true;
    while more
      invariant buf.pos <= out.pos <= buf.end && out == buf.(pos := out.pos)
      invariant out.pos - buf.pos <= |goal|
      invariant data[..] == Splice(mem, buf.pos, goal[..out.pos - buf.pos])
      invariant if more then Varint(v) == goal[out.pos - buf.pos..] else out.pos - buf.pos == |goal|
      decreases |goal| - (out.pos - buf.pos), more
    {
      ghost var i := out.pos - buf.pos;
      if out.Left() < 1 {
        return EndOfBuf, out;
      }
      var digit: byte := if v > 127 then 128 + v % 128 else v % 128;
      VarintDigit(goal, i, v);
      data[out.pos] := digit;
      WriteNext(mem, buf.pos, goal, i);
      v := v / 128;
      out := out.(pos := out.pos + 1);
      more := v != 0;
    }
    return Ok, out;
  }

  /** The digit a varint starts with, and what follows it. */
  lemma VarintDigit(goal: seq<byte>, i: nat, v: nat)
    requires i <= |goal| && Varint(v) == goal[i..]
    ensures i < |goal| && goal[i] == if v > 127 then 128 + v % 128 else v % 128
    ensures if v > 127 then Varint(v / 128) == goal[i + 1..] else i + 1 == |goal|
  {
    if v > 127 {
      assert goal[i..][1..] == goal[i + 1..];
    }
  }

  lemma NothingWritten(mem: seq<byte>, at: nat, goal: seq<byte>)
    requires at <= |mem|
    ensures Splice(mem, at, goal[..0]) == mem
  {
  }

  lemma WriteNext(mem: seq<byte>, at: nat, goal: seq<byte>, i: nat)
    requires i < |goal| && at + i < |mem|
    ensures Splice(mem, at, goal[..i])[at + i := goal[i]] == Splice(mem, at, goal[..i + 1])
  {
  }

  /** Writes four bytes, low byte first, or nothing. */
  method Put32(data: array<byte>, buf: Buf, value: u32) returns (err: Err, out: Buf)
    requires buf.Valid(data.Length)
    modifies data
    ensures Wrote(old(data[..]), data[..], buf, out, Le(value, 4), err)
    ensures !err.Ok? ==> out == buf
  {
    if buf.Left() < 4 {
      return EndOfBuf, buf;
    }
    data[buf.pos] := value % 256;
    data[buf.pos + 1] := value / 0x100 % 256;
    data[buf.pos + 2] := value / 0x1_0000 % 256;
    data[buf.pos + 3] := value / 0x100_0000 % 256;
    LeFour(value, 0);
    assert data[..] == Splice(old(data[..]), buf.pos, Le(value, 4)[..4]);
    return Ok, buf.(pos := buf.pos + 4);
  }

  /** The first four bytes of a little-endian word, and what is left of it. */
  lemma LeFour(v: nat, k: nat)
    ensures Le(v, k + 4) ==
            [v % 256, v / 0x100 % 256, v / 0x1_0000 % 256, v / 0x100_0000 % 256] + Le(v / TWO32, k)
  {
    var v1, v2, v3, v4 := v / 0x100, v / 0x1_0000, v / 0x100_0000, v / TWO32;
    assert v2 == v1 / 256 && v3 == v2 / 256 && v4 == v3 / 256;
    assert Le(v3, k + 1) == [v3 % 256] + Le(v4, k);
    assert Le(v2, k + 2) == [v2 % 256] + Le(v3, k + 1);
    assert Le(v1, k + 3) == [v1 % 256] + Le(v2, k + 2);
    assert Le(v, k + 4) == [v % 256] + Le(v1, k + 3);
  }

  /** Writes eight bytes, low byte first, as two groups of four, or nothing. */
  method Put64(data: array<byte>, buf: Buf, value: u64) returns (err: Err, out: Buf)
    requires buf.Valid(data.Length)
    modifies data
    ensures Wrote(old(data[..]), data[..], buf, out, Le(value, 8), err)
    ensures !err.Ok? ==> out == buf
  {
    if buf.Left() < 8 {
      return EndOfBuf, buf;
    }
    var v := value;
    data[buf.pos] := v % 256;
    data[buf.pos + 1] := v / 0x100 % 256;
    data[buf.pos + 2] := v / 0x1_0000 % 256;
    data[buf.pos + 3] := v / 0x100_0000 % 256;
    v := v / TWO32;
    data[buf.pos + 4] := v % 256;
    data[buf.pos + 5] := v / 0x100 % 256;
    data[buf.pos + 6] := v / 0x1_0000 % 256;
    data[buf.pos + 7] := v / 0x100_0000 % 256;
    LeFour(value, 4);
    LeFour(v, 0);
    assert data[..] == Splice(old(data[..]), buf.pos, Le(value, 8)[..8]);
    return Ok, buf.(pos := buf.pos + 8);
  }

  /** Moves `n` bytes left within one array, ascending, so that overlapping stretches survive. */
  method MoveLeft(data: array<byte>, dst: nat, src: nat, n: nat)
    requires dst <= src && src + n <= data.Length
    modifies data
    ensures data[..] == Splice(old(data[..]), dst, old(data[src..src + n]))
  {
    if dst == src {
      return;
    }
    for i := 0 to n
      invariant forall j :: 0 <= j < data.Length ==>
                  data[j] == if dst <= j < dst + i then old(data[j - dst + src]) else old(data[j])
    {
      data[dst + i] := data[src + i];
    }
  }

  /** Copies bytes from elsewhere into the array. */
  method CopyIn(data: array<byte>, dst: nat, src: seq<byte>)
    requires dst + |src| <= data.Length
    modifies data
    ensures data[..] == Splice(old(data[..]), dst, src)
  {
    for i := 0 to |src|
      invariant forall j :: 0 <= j < data.Length ==>
                  data[j] == if dst <= j < dst + i then src[j - dst] else old(data[j])
    {
      data[dst + i] := src[i];
    }
  }
}
