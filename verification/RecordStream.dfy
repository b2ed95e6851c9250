/** Streams of length-prefixed records (python/lwpb/stream.py). */
module RecordStream {
  import opened Wire
  import opened Schema

  type Bytes = seq<byte>

  // ---- what a stream holds ----

  /** A record as it is written: its length, as a 32-bit word, and its bytes. */
  function Record(r: Bytes): Bytes {
    Le(|r| % TWO32, 4) + r
  }

  function Stream(rs: seq<Bytes>): Bytes {
    if rs == [] then [] else Record(rs[0]) + Stream(rs[1..])
  }

  /** Where the record `k` starts: four bytes and the length of every record before it. */
  function Offset(rs: seq<Bytes>, k: nat): nat
    requires k <= |rs|
  {
    if k == 0 then 0 else Offset(rs, k - 1) + 4 + |rs[k - 1]|
  }

  function Min(a: nat, b: nat): nat { if a < b then a else b }

  /** What a read finds in the rest of a stream: nothing when there is no whole length left, or a record, cut
      off where the stream ends. */
  function ReadOne(s: Bytes): (r: Option<Bytes>)
    ensures r.Some? ==> 4 + |r.value| <= |s|
  {
    if |s| < 4 then None else Some(s[4..4 + Min(UnLe(s[..4]), |s| - 4)])
  }

  /** All records of the rest of a stream. */
  function ReadAll(s: Bytes): (rs: seq<Bytes>)
    decreases |s|
  {
    match ReadOne(s)
    case None => []
    case Some(r) => [r] + ReadAll(s[4 + |r|..])
  }

  predicate Fit(rs: seq<Bytes>) {
    forall i :: 0 <= i < |rs| ==> |rs[i]| < TWO32
  }

  // ---- the length word ----

  /** A record starts with its length modulo 2^32, lowest byte first. */
  lemma RecordBytes(r: Bytes)
    ensures var n := |r| % 0x1_0000_0000;
            Record(r) == [n % 0x100, n / 0x100 % 0x100, n / 0x1_0000 % 0x100, n / 0x100_0000] + r
  {
    var n := |r| % 0x1_0000_0000;
    LeStep(n, 3);
    LeStep(n / 0x100, 2);
    LeStep(n / 0x1_0000, 1);
    LeStep(n / 0x100_0000, 0);
    assert n / 0x100 / 0x100 == n / 0x1_0000 && n / 0x1_0000 / 0x100 == n / 0x100_0000;
    hide Le;
  }

  lemma LeStep(v: nat, k: nat)
    ensures Le(v, k + 1) == [v % 256] + Le(v / 256, k) && Le(v / 256, 0) == []
  {
  }

  /** What is read at the front of any bytes: nothing from fewer than four, else as many of the bytes behind them as
      the four say and as there are. */
  lemma ReadBytes(s: Bytes)
    ensures |s| < 4 ==> ReadOne(s).None?
    ensures |s| >= 4 ==>
              var a: int, b: int, c: int, d: int := s[0], s[1], s[2], s[3];
              var n := a + b * 0x100 + c * 0x1_0000 + d * 0x100_0000;
              ReadOne(s) == Some(s[4..if 4 + n <= |s| then 4 + n else |s|])
  {
    if |s| >= 4 {
      var a, b, c, d := s[0], s[1], s[2], s[3];
      var word := s[..4];
      assert word[1..] == [b, c, d] && [b, c, d][1..] == [c, d] && [c, d][1..] == [d] && [d][1..] == [];
      assert UnLe([]) == 0 && UnLe([d]) == d && UnLe([c, d]) == c + 256 * UnLe([d]);
      assert UnLe([b, c, d]) == b + 256 * UnLe([c, d]) && UnLe(word) == a + 256 * UnLe([b, c, d]);
    }
  }

  // ---- reading back what was written ----

  /** A record read from its own bytes, in part or with others behind it. */
  lemma ReadRecord(r: Bytes, s: Bytes)
    requires |r| < TWO32 && |s| >= 4 && (s <= Record(r) || Record(r) <= s)
    ensures ReadOne(s) == Some(r[..Min(|r|, |s| - 4)])
  {
    FrontOf(Le(|r|, 4), r, s);
    Pow256Widths();
    LeRoundTrip(|r|, 4);
    hide Le, UnLe;
  }

  /** What a stream starts with, when it starts with a word and a record or is cut off in them. */
  lemma FrontOf(word: Bytes, r: Bytes, s: Bytes)
    requires |word| == 4 && |s| >= 4 && (s <= word + r || word + r <= s)
    ensures s[..4] == word
    ensures var n := Min(|r|, |s| - 4); s[4..4 + n] == r[..n]
  {
  }

  /** A record comes back, read from a stream it starts, exactly when its length fits the 32-bit word. */
  lemma RecordComesBackExactly(r: Bytes, rest: Bytes)
    ensures ReadOne(Record(r) + rest) == Some(r) <==> |r| < TWO32
  {
    var s, n := Record(r) + rest, |r| % TWO32;
    if |r| < TWO32 {
      ReadRecord(r, s);
      assert r[..|r|] == r;
    } else {
      Pow256Widths();
      LeRoundTrip(n, 4);
      assert s[..4] == Le(n, 4);
    }
  }

  lemma {:induction false} StreamFrom(rs: seq<Bytes>, k: nat)
    requires k <= |rs|
    ensures Offset(rs, k) <= |Stream(rs)| && Stream(rs)[Offset(rs, k)..] == Stream(rs[k..])
    ensures k == |rs| ==> Offset(rs, k) == |Stream(rs)|
    decreases k
  {
    if k > 0 {
      StreamFrom(rs, k - 1);
      var at := Offset(rs, k - 1);
      assert rs[k - 1..][1..] == rs[k..];
      assert Stream(rs)[at..] == Record(rs[k - 1]) + Stream(rs[k..]);
      assert Stream(rs)[at..][4 + |rs[k - 1]|..] == Stream(rs[k..]);
    } else {
      assert rs[0..] == rs && Stream(rs)[0..] == Stream(rs);
    }
  }

  /** Seeking to a record's offset reads that record. */
  lemma SeekFinds(rs: seq<Bytes>, k: nat)
    requires k < |rs| && |rs[k]| < TWO32
    ensures Offset(rs, k) <= |Stream(rs)| && ReadOne(Stream(rs)[Offset(rs, k)..]) == Some(rs[k])
  {
    StreamFrom(rs, k);
    assert Stream(rs[k..]) == Record(rs[k]) + Stream(rs[k..][1..]);
    RecordComesBackExactly(rs[k], Stream(rs[k..][1..]));
  }

  /** What is there of the records in the first `n` bytes of their stream: whole records, and then a part of the
      next one, unless not even its length is there. */
  function Available(rs: seq<Bytes>, n: nat): seq<Bytes> {
    if rs == [] || n < 4 then []
    else if n < 4 + |rs[0]| then [rs[0][..n - 4]]
    else [rs[0]] + Available(rs[1..], n - 4 - |rs[0]|)
  }

  /** Reading a stream, in full or cut off anywhere, gives what is there, in order. */
  lemma {:induction false} ReadsBack(rs: seq<Bytes>, n: nat)
    requires Fit(rs) && n <= |Stream(rs)|
    ensures ReadAll(Stream(rs)[..n]) == Available(rs, n)
    decreases |rs|
  {
    if rs == [] || n < 4 {
      assert |Stream(rs)[..n]| < 4;
    } else if n < 4 + |rs[0]| {
      ReadsFirst(rs, n);
    } else {
      hide ReadAll, Stream;
      ReadsNext(rs, n);
      ReadsBack(rs[1..], n - 4 - |rs[0]|);
    }
  }

  lemma {:induction false} AllAvailable(rs: seq<Bytes>)
    ensures Available(rs, |Stream(rs)|) == rs
    decreases |rs|
  {
    if rs != [] { AllAvailable(rs[1..]); }
  }

  lemma ReadsFirst(rs: seq<Bytes>, n: nat)
    requires rs != [] && |rs[0]| < TWO32 && 4 <= n < 4 + |rs[0]| && n <= |Stream(rs)|
    ensures ReadAll(Stream(rs)[..n]) == [rs[0][..n - 4]]
  {
    var s := Stream(rs)[..n];
    StartOfStream(rs, n);
    ReadRecord(rs[0], s);
    hide ReadOne, Record, Stream;
    assert s[n..] == [];
    assert ReadAll([]) == [];
  }

  lemma ReadsNext(rs: seq<Bytes>, n: nat)
    requires rs != [] && |rs[0]| < TWO32 && 4 + |rs[0]| <= n <= |Stream(rs)|
    ensures n - 4 - |rs[0]| <= |Stream(rs[1..])|
    ensures ReadAll(Stream(rs)[..n]) == [rs[0]] + ReadAll(Stream(rs[1..])[..n - 4 - |rs[0]|])
  {
    StartOfStream(rs, n);
    ReadRecord(rs[0], Stream(rs)[..n]);
    hide ReadOne, ReadAll, Record, Stream;
    TakeAll(rs[0]);
    ReadAllNext(Stream(rs)[..n], rs[0]);
  }

  lemma TakeAll(s: Bytes)
    ensures s[..|s|] == s
  {
  }

  lemma ReadAllNext(s: Bytes, r: Bytes)
    requires ReadOne(s) == Some(r)
    ensures ReadAll(s) == [r] + ReadAll(s[4 + |r|..])
  {
    hide ReadOne;
  }

  lemma ReadAllEnd(s: Bytes)
    requires ReadOne(s).None?
    ensures ReadAll(s) == []
  {
  }

  /** The first bytes of a stream: the first record or a part of it, and what follows. */
  lemma StartOfStream(rs: seq<Bytes>, n: nat)
    requires n <= |Stream(rs)| && rs != []
    ensures var s := Stream(rs)[..n];
            && |Record(rs[0])| == 4 + |rs[0]| && (s <= Record(rs[0]) || Record(rs[0]) <= s)
            && (n >= 4 + |rs[0]| ==> n - 4 - |rs[0]| <= |Stream(rs[1..])|
                                     && s[4 + |rs[0]|..] == Stream(rs[1..])[..n - 4 - |rs[0]|])
  {
    hide Le;
  }

  /** Every sequence of records that fit comes back as it was written. */
  lemma StreamRoundTrip(rs: seq<Bytes>)
    requires Fit(rs)
    ensures ReadAll(Stream(rs)) == rs
  {
    ReadsBack(rs, |Stream(rs)|);
    AllAvailable(rs);
    assert Stream(rs)[..|Stream(rs)|] == Stream(rs);
  }

  lemma {:induction false} StreamConcat(a: seq<Bytes>, b: seq<Bytes>)
    ensures Stream(a + b) == Stream(a) + Stream(b)
    decreases |a|
  {
    hide Record;
    if a == [] {
      assert a + b == b;
    } else {
      StreamConcat(a[1..], b);
      assert (a + b)[0] == a[0] && (a + b)[1..] == a[1..] + b;
    }
  }

  // ---- writer and reader ----

  class StreamWriter {
    var stream: Bytes

    constructor ()
      ensures stream == []
    {
      stream := [];
    }

    /** Appends a record. */
    method WriteRaw(raw: Bytes) returns (recordLen: nat)
      modifies this
      ensures stream == old(stream) + Record(raw) && recordLen == |raw|
      ensures forall rs :: old(stream) == Stream(rs) ==> stream == Stream(rs + [raw])
    {
      recordLen := |raw|;
      stream := stream + Le(recordLen % TWO32, 4);
      stream := stream + raw;
      forall rs | old(stream) == Stream(rs) ensures stream == Stream(rs + [raw]) {
        StreamConcat(rs, [raw]);
        assert [raw][1..] == [] && Stream([raw]) == Record(raw) + [];
      }
    }
  }

  class StreamReader {
    const stream: Bytes
    var pos: nat
    var eof: bool
    var currentOffset: nat
    var currentNumber: int
    var currentRaw: Option<Bytes>
    var currentLength: Option<nat>

    predicate Valid()
      reads this
    {
      pos <= |stream|
    }

    constructor (stream: Bytes)
      ensures Valid() && this.stream == stream && pos == 0 && !eof && currentNumber == -1
    {
      this.stream := stream;
      pos, eof, currentOffset, currentNumber, currentRaw, currentLength := 0, false, 0, -1, None, None;
    }

    /** Moves the stream's position. */
    method Seek(offset: nat)
      requires offset <= |stream|
      modifies this`pos
      ensures Valid() && pos == offset
    {
      pos := offset;
    }

    /** Takes up to `n` bytes. */
    method Take(n: nat) returns (data: Bytes)
      requires Valid()
      modifies this`pos
      ensures Valid() && old(pos) <= pos
      ensures data == stream[old(pos)..pos] && |data| == Min(n, |stream| - old(pos))
    {
      var k := Min(n, |stream| - pos);
      data := stream[pos..pos + k];
      pos := pos + k;
    }

    /** Reads the next record and notes where it was; at the end of the stream it sets `eof`. */
    method ReadRaw() returns (raw: Option<Bytes>)
      requires Valid()
      modifies this
      ensures Valid() && raw == currentRaw == ReadOne(stream[old(pos)..]) && currentOffset == old(pos)
      ensures raw.Some? ==> pos == old(pos) + 4 + |raw.value| && currentNumber == old(currentNumber) + 1 && eof == old(eof)
                            && currentLength == Some(UnLe(stream[old(pos)..old(pos) + 4]))
      ensures raw.None? ==> pos == |stream| && eof && currentNumber == old(currentNumber) && currentLength.None?
    {
      ghost var rest := stream[pos..];
      currentOffset := pos;
      currentLength, currentRaw := None, None;
      var data := Take(4);
      if |data| < 4 {
        eof := true;
        return None;
      }
      assert data == rest[..4];
      currentLength := Some(UnLe(data));
      var body := Take(currentLength.value);
      assert body == rest[4..4 + |body|];
      currentRaw := Some(body);
      currentNumber := currentNumber + 1;
      raw := currentRaw;
    }

    /** Reads all records that are left, with the offset of each. */
    method Records() returns (rs: seq<Bytes>, offsets: seq<nat>)
      requires Valid() && !eof
      modifies this
      ensures eof && rs == ReadAll(stream[old(pos)..]) && currentNumber == old(currentNumber) + |rs|
      ensures OffsetsOf(offsets, rs, old(pos))
    {
      hide ReadOne, ReadAll, UnLe, OffsetsOf, Offset;
      OffsetsNone(pos);
      rs, offsets := [], [];
      while !eof
        invariant Valid() && currentNumber == old(currentNumber) + |rs|
        invariant !eof ==> rs + ReadAll(stream[pos..]) == ReadAll(stream[old(pos)..])
        invariant !eof ==> pos == old(pos) + Offset(rs, |rs|)
        invariant eof ==> rs == ReadAll(stream[old(pos)..])
        invariant OffsetsOf(offsets, rs, old(pos))
        decreases !eof, |stream| - pos
      {
        ghost var rest, before := stream[pos..], rs;
        var raw := ReadRaw();
        if raw.Some? {
          OffsetsExtend(offsets, rs, raw.value, old(pos));
          rs, offsets := rs + [raw.value], offsets + [currentOffset];
          ReadAllNext(rest, raw.value);
          assert stream[pos..] == rest[4 + |raw.value|..];
          assert before + ([raw.value] + ReadAll(stream[pos..])) == rs + ReadAll(stream[pos..]);
        } else {
          ReadAllEnd(rest);
        }
      }
    }
  }

  /** The records' offsets in a stream that starts at `base`. */
  predicate OffsetsOf(offsets: seq<nat>, rs: seq<Bytes>, base: nat) {
    |offsets| == |rs| && forall k :: 0 <= k < |rs| ==> offsets[k] == base + Offset(rs, k)
  }

  lemma OffsetsNone(base: nat)
    ensures OffsetsOf([], [], base) && Offset([], 0) == 0
  {
  }

  /** Offsets do not depend on the records behind them. */
  lemma OffsetsExtend(offsets: seq<nat>, rs: seq<Bytes>, r: Bytes, base: nat)
    requires OffsetsOf(offsets, rs, base)
    ensures OffsetsOf(offsets + [base + Offset(rs, |rs|)], rs + [r], base)
    ensures Offset(rs + [r], |rs| + 1) == Offset(rs, |rs|) + 4 + |r|
  {
    OffsetLast(rs, r);
    hide Offset;
    var all := offsets + [base + Offset(rs, |rs|)];
    forall k | 0 <= k <= |rs| ensures all[k] == base + Offset(rs + [r], k) { OffsetKept(rs, r, k); }
  }

  lemma OffsetLast(rs: seq<Bytes>, r: Bytes)
    ensures Offset(rs + [r], |rs| + 1) == Offset(rs, |rs|) + 4 + |r|
  {
    OffsetKept(rs, r, |rs|);
  }

  lemma {:induction false} OffsetKept(rs: seq<Bytes>, r: Bytes, k: nat)
    requires k <= |rs|
    ensures Offset(rs + [r], k) == Offset(rs, k)
    decreases k
  {
    if k > 0 { OffsetKept(rs, r, k - 1); }
  }
}
