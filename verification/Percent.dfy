/** The percent codec (python/percent/codec.py): records as lines of escaped values between delimiters. */
module Percent {
  import opened Wire
  import opened Schema

  type Str = seq<byte>

  const PERCENT: byte := 37
  const CR: byte := 13
  const LF: byte := 10

  // ---- escaping ----

  function Lower(n: nat): byte
    requires n < 16
  {
    if n < 10 then 48 + n else 87 + n
  }

  function Upper(n: nat): byte
    requires n < 16
  {
    if n < 10 then 48 + n else 55 + n
  }

  /** `%02x` and `%02X`. */
  function LowerHex(c: byte): (h: Str)
    ensures |h| == 2
  {
    [Lower(c / 16), Lower(c % 16)]
  }

  function UpperHex(c: byte): Str {
    [Upper(c / 16), Upper(c % 16)]
  }

  /** Safe characters stand for themselves, a percent sign for itself twice, all others for a hex code. */
  function EscapedOne(safe: set<byte>, c: byte): Str {
    if c == PERCENT then [PERCENT, PERCENT] else if c in safe then [c] else [PERCENT] + LowerHex(c)
  }

  /** The sixteen digits, in order. */
  const DIGITS: Str := [48, 49, 50, 51, 52, 53, 54, 55, 56, 57, 97, 98, 99, 100, 101, 102]

  /** What each character is escaped as: two percent signs, itself, or a percent sign and two lower-case digits. */
  lemma EscapedOneIs(safe: set<byte>, c: byte)
    ensures c == 37 ==> EscapedOne(safe, c) == [37, 37]
    ensures c != 37 && c in safe ==> EscapedOne(safe, c) == [c]
    ensures c != 37 && c !in safe ==> EscapedOne(safe, c) == [37, DIGITS[c / 16], DIGITS[c % 16]]
  {
  }

  function Escaped(safe: set<byte>, s: Str): Str {
    if s == [] then [] else EscapedOne(safe, s[0]) + Escaped(safe, s[1..])
  }

  predicate IsHex(c: byte) {
    48 <= c <= 57 || 65 <= c <= 70 || 97 <= c <= 102
  }

  predicate IsLowerLetter(c: byte) { c >= 97 }

  predicate IsUpperLetter(c: byte) { 65 <= c <= 70 }

  function HexValue(c: byte): (n: nat)
    requires IsHex(c)
    ensures n < 16
  {
    if c <= 57 then c - 48 else if c <= 70 then c - 55 else c - 87
  }

  /** The character a matched code stands for. The table has lower-case and upper-case codes, no mixed ones. */
  function CodeChar(code: Str): (c: Option<byte>)
    requires |code| == 2 && IsHex(code[0]) && IsHex(code[1])
  {
    if (IsLowerLetter(code[0]) && IsUpperLetter(code[1])) || (IsUpperLetter(code[0]) && IsLowerLetter(code[1])) then None
    else Some(HexValue(code[0]) * 16 + HexValue(code[1]))
  }

  /** Replaces the codes from left to right; a percent sign that starts no code is left as it is. It fails on a
      code that is not in the table. */
  function Unescaped(s: Str): (r: Option<Str>)
    decreases |s|
  {
    if s == [] then Some([])
    else if s[0] == PERCENT && |s| >= 2 && s[1] == PERCENT then Prepend(PERCENT, Unescaped(s[2..]))
    else if s[0] == PERCENT && |s| >= 3 && IsHex(s[1]) && IsHex(s[2]) then
      var c := CodeChar(s[1..3]);
      if c.Some? then Prepend(c.value, Unescaped(s[3..])) else None
    else Prepend(s[0], Unescaped(s[1..]))
  }

  function Prepend(c: byte, r: Option<Str>): Option<Str> {
    if r.Some? then Some([c] + r.value) else None
  }

  lemma LowerHexRead(c: byte)
    ensures var h := LowerHex(c); IsHex(h[0]) && IsHex(h[1]) && CodeChar(h) == Some(c)
    ensures LowerHex(c)[0] != PERCENT
  {
  }

  lemma UpperHexRead(c: byte)
    ensures var h := UpperHex(c); IsHex(h[0]) && IsHex(h[1]) && CodeChar(h) == Some(c)
  {
  }

  /** Every code that has a character is one of the table's. */
  lemma CodeCharIsTable(code: Str)
    requires |code| == 2 && IsHex(code[0]) && IsHex(code[1])
    ensures var c := CodeChar(code); c.Some? ==> code == LowerHex(c.value) || code == UpperHex(c.value)
  {
  }

  /** Unescaping undoes escaping for every byte string, whatever characters are safe. */
  lemma {:induction false} EscapeRoundTrip(safe: set<byte>, s: Str)
    ensures Unescaped(Escaped(safe, s)) == Some(s)
    decreases |s|
  {
    hide CodeChar, LowerHex;
    if s != [] {
      EscapeRoundTrip(safe, s[1..]);
      var rest := Escaped(safe, s[1..]);
      var all := EscapedOne(safe, s[0]) + rest;
      assert [s[0]] + s[1..] == s;
      if s[0] == PERCENT {
        assert all[0] == PERCENT && all[1] == PERCENT && all[2..] == rest;
      } else if s[0] in safe {
        assert all[1..] == rest;
      } else {
        LowerHexRead(s[0]);
        assert all[1..3] == LowerHex(s[0]) && all[3..] == rest;
      }
    }
  }

  // ---- what escaped values contain ----

  predicate IsDigit(c: byte) { 48 <= c <= 57 }

  predicate IsLowerHex(c: byte) { 97 <= c <= 102 }

  /** The codes of some characters contain the letter: those characters are the ones with the letter's value for
      one of their two digits. */
  predicate CodeUses(d: byte, c: byte) {
    d in LowerHex(c)
  }

  /** When no escaped value contains the character: it is not escaped into itself, and only unsafe characters'
      codes could contain it. */
  predicate NeverWritten(safe: set<byte>, d: byte) {
    && d !in safe && d != PERCENT && !IsDigit(d)
    && (IsLowerHex(d) ==> forall c: byte | 0 <= c < 256 :: CodeUses(d, c) ==> c in safe)
  }

  predicate Absent(safe: set<byte>, d: byte, s: Str) {
    d !in Escaped(safe, s)
  }

  /** A character that is not safe occurs in no escaped value exactly when it is not a percent sign, not a digit,
      and not a letter in the code of an unsafe character. */
  lemma NeverWrittenExactly(safe: set<byte>, d: byte)
    requires d !in safe
    ensures (forall s :: Absent(safe, d, s)) <==> NeverWritten(safe, d)
  {
    if NeverWritten(safe, d) {
      forall s ensures Absent(safe, d, s) { NeverWrittenAbsent(safe, d, s); }
    } else {
      var c: byte := d;
      if IsLowerHex(d) {
        var x: byte :| 0 <= x < 256 && CodeUses(d, x) && x !in safe;
        c := x;
      }
      if IsDigit(d) { assert LowerHex(d)[1] == d; }
      assert EscapedOne(safe, c) == Escaped(safe, [c]) by {
        assert [c][1..] == [];
        assert EscapedOne(safe, c) + [] == EscapedOne(safe, c);
      }
      assert d in EscapedOne(safe, c) by {
        if c != PERCENT {
          var e := EscapedOne(safe, c);
          assert e[1..] == LowerHex(c);
          assert d in e[1..];
        }
      }
      var s: Str := [c];
      assert !Absent(safe, d, s);
    }
  }

  lemma {:induction false} NeverWrittenAbsent(safe: set<byte>, d: byte, s: Str)
    requires NeverWritten(safe, d)
    ensures Absent(safe, d, s)
    decreases |s|
  {
    if s != [] {
      NeverWrittenAbsent(safe, d, s[1..]);
      if s[0] !in safe { CodeWithout(safe, d, s[0]); }
    }
  }

  lemma CodeWithout(safe: set<byte>, d: byte, c: byte)
    requires NeverWritten(safe, d) && c !in safe
    ensures d !in LowerHex(c)
  {
    assert IsLowerHex(d) ==> !CodeUses(d, c);
  }

  // ---- lines ----

  function Join(d: byte, values: seq<Str>): Str
    requires values != []
  {
    if |values| == 1 then values[0] else values[0] + [d] + Join(d, values[1..])
  }

  /** The first place of a character, or the length. */
  function IndexOf(s: Str, d: byte): (i: nat)
    ensures i <= |s| && d !in s[..i] && (i < |s| ==> s[i] == d)
  {
    if s == [] || s[0] == d then 0 else IndexOf(s[1..], d) + 1
  }

  /** Splits at the delimiter, at most `n` times, from the left. */
  function Split(s: Str, d: byte, n: nat): (r: seq<Str>)
    ensures 1 <= |r| <= n + 1
  {
    var i := IndexOf(s, d);
    if n == 0 || i == |s| then [s] else [s[..i]] + Split(s[i + 1..], d, n - 1)
  }

  /** Drops line ends from the end. */
  function Strip(s: Str): (r: Str)
    ensures r <= s && (r != [] ==> r[|r| - 1] != CR && r[|r| - 1] != LF)
    ensures s != [] && s[|s| - 1] != CR && s[|s| - 1] != LF ==> r == s
  {
    if s != [] && (s[|s| - 1] == CR || s[|s| - 1] == LF) then Strip(s[..|s| - 1]) else s
  }

  /** A line loses exactly the line ends at its end, carriage returns and line feeds. */
  lemma {:induction false} StripExactly(s: Str)
    ensures Strip(s) <= s && forall i :: |Strip(s)| <= i < |s| ==> s[i] == 13 || s[i] == 10
    ensures Strip(s) != [] ==> Strip(s)[|Strip(s)| - 1] != 13 && Strip(s)[|Strip(s)| - 1] != 10
    decreases |s|
  {
    if s != [] && (s[|s| - 1] == CR || s[|s| - 1] == LF) { StripExactly(s[..|s| - 1]); }
  }

  predicate Without(d: byte, s: Str) {
    d !in s
  }

  predicate AllButLastWithout(d: byte, r: seq<Str>) {
    forall i :: 0 <= i < |r| - 1 ==> Without(d, r[i])
  }

  /** The pieces joined again are the line; all but the last are free of the delimiter, and the last is unless there
      are as many pieces as there may be. */
  lemma {:induction false} SplitExactly(s: Str, d: byte, n: nat)
    ensures var r := Split(s, d, n);
            && |r| <= n + 1 && Join(d, r) == s && AllButLastWithout(d, r) && (|r| <= n ==> Without(d, r[|r| - 1]))
    decreases n
  {
    var i := FirstAt(s, d, n);
    hide *;
    if n > 0 && i < |s| {
      SplitExactly(s[i + 1..], d, n - 1);
      FirstPiece(s[..i], Split(s[i + 1..], d, n - 1), d);
    } else {
      OnePiece(s, d);
    }
  }

  lemma FirstAt(s: Str, d: byte, n: nat) returns (i: nat)
    ensures i <= |s|
    ensures Split(s, d, n) == if n == 0 || i == |s| then [s] else [s[..i]] + Split(s[i + 1..], d, n - 1)
    ensures Without(d, s[..i]) && if i < |s| then s == s[..i] + [d] + s[i + 1..] else s[..i] == s
  {
    i := IndexOf(s, d);
    Parts(s, i);
    hide IndexOf;
  }

  lemma Parts(s: Str, i: nat)
    requires i <= |s|
    ensures if i < |s| then s == s[..i] + [s[i]] + s[i + 1..] else s[..i] == s
  {
  }

  lemma OnePiece(s: Str, d: byte)
    ensures Join(d, [s]) == s && AllButLastWithout(d, [s])
  {
  }

  lemma FirstPiece(first: Str, rest: seq<Str>, d: byte)
    requires rest != [] && Without(d, first) && AllButLastWithout(d, rest)
    ensures var r := [first] + rest;
            && Join(d, r) == first + [d] + Join(d, rest) && r[|r| - 1] == rest[|rest| - 1]
            && AllButLastWithout(d, r)
  {
    hide Without;
    var r := [first] + rest;
    assert r[1..] == rest;
    forall i | 0 <= i < |r| - 1 ensures Without(d, r[i]) { if i > 0 { assert r[i] == rest[i - 1]; } }
  }

  /** The values decoded from a line written for as many values. */
  function Values(d: byte, line: Str, n: nat): seq<Str>
    requires n >= 1
  {
    Split(Strip(line), d, n - 1)
  }

  function EscapedAll(safe: set<byte>, values: seq<Str>): seq<Str> {
    seq(|values|, i requires 0 <= i < |values| => Escaped(safe, values[i]))
  }

  /** A line of `values` is split into them again. */
  predicate Recovers(safe: set<byte>, d: byte, values: seq<Str>)
    requires values != []
  {
    Values(d, Join(d, EscapedAll(safe, values)), |values|) == EscapedAll(safe, values)
  }

  lemma {:induction false} SplitJoin(d: byte, values: seq<Str>)
    requires values != [] && AllButLastWithout(d, values)
    ensures Split(Join(d, values), d, |values| - 1) == values
    decreases |values|
  {
    if |values| > 1 {
      OthersWithout(d, values);
      hide Without, AllButLastWithout, Split;
      SplitJoin(d, values[1..]);
      SplitOnce(values[0], d, Join(d, values[1..]), |values| - 1);
      assert [values[0]] + values[1..] == values;
    } else {
      OneValue(d, values);
    }
  }

  lemma OthersWithout(d: byte, values: seq<Str>)
    requires |values| > 1 && AllButLastWithout(d, values)
    ensures Without(d, values[0]) && AllButLastWithout(d, values[1..])
  {
    hide Without;
    forall i | 0 <= i < |values| - 2 ensures Without(d, values[1..][i]) { assert values[1..][i] == values[i + 1]; }
  }

  lemma OneValue(d: byte, values: seq<Str>)
    requires |values| == 1
    ensures Split(Join(d, values), d, 0) == values
  {
    hide IndexOf;
    assert values == [values[0]];
  }

  lemma SplitOnce(v: Str, d: byte, rest: Str, n: nat)
    requires Without(d, v) && n > 0
    ensures Split(v + [d] + rest, d, n) == [v] + Split(rest, d, n - 1)
  {
    hide IndexOf;
    IndexOfFirst(v, d, rest);
    assert (v + [d] + rest)[..|v|] == v && (v + [d] + rest)[|v| + 1..] == rest;
  }

  lemma {:induction false} IndexOfFirst(v: Str, d: byte, rest: Str)
    requires d !in v
    ensures IndexOf(v + [d] + rest, d) == |v|
    decreases |v|
  {
    var s := v + [d] + rest;
    if v != [] {
      assert s[0] == v[0] && s[1..] == v[1..] + [d] + rest;
      IndexOfFirst(v[1..], d, rest);
    }
  }

  // ---- which lines can be split again ----

  predicate LineEnd(c: byte) { c == CR || c == LF }

  /** When every list of `n` values is recovered from its line. */
  predicate LinesOk(safe: set<byte>, d: byte, n: nat) {
    && CR !in safe && LF !in safe
    && (n > 1 ==> NeverWritten(safe, d) && !LineEnd(d))
  }

  /** For a delimiter that is not safe, every list of `n` values is recovered from the line joined from it exactly
      when line ends are not safe either and, if there is more than one value, the delimiter is no line end and
      occurs in no escaped value. */
  lemma RecoversExactly(safe: set<byte>, d: byte, n: nat)
    requires d !in safe && n >= 1
    ensures (forall values {:trigger Recovers(safe, d, values)} :: |values| == n ==> Recovers(safe, d, values))
            <==> LinesOk(safe, d, n)
  {
    if LinesOk(safe, d, n) {
      forall values {:trigger Recovers(safe, d, values)} | |values| == n ensures Recovers(safe, d, values) {
        LineRecovered(safe, d, values);
      }
    } else {
      var values := LineLost(safe, d, n);
      assert !Recovers(safe, d, values);
    }
  }

  lemma LineRecovered(safe: set<byte>, d: byte, values: seq<Str>)
    requires values != [] && LinesOk(safe, d, |values|)
    ensures Recovers(safe, d, values)
  {
    var escaped := EscapedAll(safe, values);
    forall i | 0 <= i < |escaped| ensures |values| > 1 ==> d !in escaped[i] {
      if |values| > 1 { NeverWrittenAbsent(safe, d, values[i]); }
    }
    forall i | 0 <= i < |escaped| ensures NoLineEnd(escaped[i]) {
      LineEndsEscaped(safe, values[i]);
    }
    JoinedLineEnd(d, escaped);
    SplitJoin(d, escaped);
  }

  predicate NoLineEnd(s: Str) {
    CR !in s && LF !in s
  }

  lemma {:induction false} LineEndsEscaped(safe: set<byte>, s: Str)
    requires CR !in safe && LF !in safe
    ensures NoLineEnd(Escaped(safe, s))
    decreases |s|
  {
    if s != [] { LineEndsEscaped(safe, s[1..]); }
  }

  lemma {:induction false} JoinedLineEnd(d: byte, values: seq<Str>)
    requires values != [] && (forall i :: 0 <= i < |values| ==> NoLineEnd(values[i])) && (|values| > 1 ==> !LineEnd(d))
    ensures NoLineEnd(Join(d, values)) && Strip(Join(d, values)) == Join(d, values)
    decreases |values|
  {
    if |values| > 1 {
      forall i | 0 <= i < |values| - 1 ensures NoLineEnd(values[1..][i]) { assert values[1..][i] == values[i + 1]; }
      JoinedLineEnd(d, values[1..]);
    }
    var line := Join(d, values);
    if line != [] { assert line[|line| - 1] in line; }
  }

  function Blanks(n: nat): (r: seq<Str>) {
    seq(n, _ => [])
  }

  /** A list of values that is lost. */
  lemma LineLost(safe: set<byte>, d: byte, n: nat) returns (values: seq<Str>)
    requires d !in safe && n >= 1 && !LinesOk(safe, d, n)
    ensures |values| == n && !Recovers(safe, d, values)
  {
    if CR in safe || LF in safe {
      var c := if CR in safe then CR else LF;
      values := Blanks(n - 1) + [[c]];
      EndLost(safe, d, values, c);
    } else if LineEnd(d) {
      values := Blanks(n);
      assert EscapedAll(safe, values) == values;
      BlanksStripped(d, n);
    } else {
      NeverWrittenExactly(safe, d);
      var s :| !Absent(safe, d, s);
      values := [s] + Blanks(n - 1);
      var line := Strip(Join(d, EscapedAll(safe, values)));
      SplitFirst(line, d, n - 1);
      assert EscapedAll(safe, values)[0] == Escaped(safe, s);
    }
  }

  /** A line end at the end of the last value is stripped. */
  lemma EndLost(safe: set<byte>, d: byte, values: seq<Str>, c: byte)
    requires values != [] && c in safe && LineEnd(c) && values[|values| - 1] == [c]
    ensures !Recovers(safe, d, values)
  {
    LastEscaped(safe, values, c);
    hide Values, Join, EscapedAll, LineEnd, EndsStripped;
    var q := EscapedAll(safe, values);
    LastIsStripped(Join(d, q), d, |values|);
    NotStripped(q, c);
  }

  /** No line end is at the end of the last value. */
  predicate EndsStripped(r: seq<Str>) {
    r != [] && (r[|r| - 1] == [] || !LineEnd(r[|r| - 1][|r[|r| - 1]| - 1]))
  }

  lemma NotStripped(q: seq<Str>, c: byte)
    requires q != [] && q[|q| - 1] == [c] && LineEnd(c)
    ensures !EndsStripped(q)
  {
  }

  lemma LastIsStripped(s: Str, d: byte, n: nat)
    requires n >= 1
    ensures EndsStripped(Values(d, s, n))
  {
    hide Split, Strip;
    SplitLast(Strip(s), d, n - 1);
  }

  lemma LastEscaped(safe: set<byte>, values: seq<Str>, c: byte)
    requires values != [] && c in safe && c != PERCENT && values[|values| - 1] == [c]
    ensures var r := EscapedAll(safe, values); |r| == |values| && r[|r| - 1] == [c]
  {
    assert Escaped(safe, [c]) == [c] by { assert [c][1..] == []; }
    hide Escaped;
  }

  /** `a` ends as `s` does. */
  predicate EndsAs(a: Str, s: Str) {
    a != [] ==> s != [] && a[|a| - 1] == s[|s| - 1]
  }

  /** The last piece ends where the line ends. */
  lemma {:induction false} SplitLast(s: Str, d: byte, n: nat)
    ensures var r := Split(s, d, n); EndsAs(r[|r| - 1], s)
    decreases n
  {
    var i := SplitStep(s, d, n);
    hide *;
    if n > 0 && i < |s| {
      SplitLast(s[i + 1..], d, n - 1);
      var after := Split(s[i + 1..], d, n - 1);
      LastOfAll(s[..i], after);
      EndOfRest(after[|after| - 1], s, i + 1);
    } else {
      EndsAsItself(s);
    }
  }

  lemma EndsAsItself(s: Str)
    ensures EndsAs(s, s)
  {
  }

  lemma EndOfRest(a: Str, s: Str, i: nat)
    requires i <= |s| && EndsAs(a, s[i..])
    ensures EndsAs(a, s)
  {
  }

  lemma SplitStep(s: Str, d: byte, n: nat) returns (i: nat)
    ensures i <= |s|
    ensures Split(s, d, n) == if n == 0 || i == |s| then [s] else [s[..i]] + Split(s[i + 1..], d, n - 1)
  {
    i := IndexOf(s, d);
  }

  lemma LastOfAll(first: Str, rest: seq<Str>)
    requires rest != []
    ensures ([first] + rest)[|[first] + rest| - 1] == rest[|rest| - 1]
  {
  }

  /** The first of several pieces does not contain the delimiter. */
  lemma SplitFirst(s: Str, d: byte, n: nat)
    ensures |Split(s, d, n)| > 1 ==> d !in Split(s, d, n)[0]
  {
  }

  /** A line of delimiters that are line ends is stripped as a whole. */
  lemma {:induction false} BlanksStripped(d: byte, n: nat)
    requires LineEnd(d) && n >= 1
    ensures Strip(Join(d, Blanks(n))) == []
    decreases n
  {
    AllOne(d, n);
    AllStripped(Join(d, Blanks(n)));
  }

  lemma {:induction false} AllOne(d: byte, n: nat)
    requires n >= 1
    ensures forall c :: c in Join(d, Blanks(n)) ==> c == d
    decreases n
  {
    if n > 1 {
      assert Blanks(n)[1..] == Blanks(n - 1);
      AllOne(d, n - 1);
    }
  }

  lemma {:induction false} AllStripped(s: Str)
    requires forall c :: c in s ==> LineEnd(c)
    ensures Strip(s) == []
    decreases |s|
  {
    if s != [] {
      assert s[|s| - 1] in s;
      AllStripped(s[..|s| - 1]);
    }
  }

  // ---- the codec ----

  type Flat = map<Str, Str>

  /** The values of a record for the codec's fields, an empty one for a field that is missing. */
  function FieldValues(fields: seq<Str>, flat: Flat): seq<Str> {
    seq(|fields|, i requires 0 <= i < |fields| => if fields[i] in flat then flat[fields[i]] else [])
  }

  /** The record of the codec's fields. */
  function FieldRecord(fields: seq<Str>, flat: Flat): Flat {
    map k | k in fields :: if k in flat then flat[k] else []
  }

  function SafeSet(safe: Str, unsafe: Str, delim: byte): set<byte> {
    (set c | c in safe) - (set c | c in unsafe + [delim])
  }

  /** The delimiter is never safe, and an unsafe character is not, wherever it is named besides. */
  lemma SafeSetIs(safe: Str, unsafe: Str, delim: byte, c: byte)
    ensures c in SafeSet(safe, unsafe, delim) <==> c in safe && c !in unsafe && c != delim
  {
  }

  /** The table while it is filled. */
  function Coded(done: set<byte>, c: byte): Str {
    if c in done then [c] else [PERCENT] + LowerHex(c)
  }

  /** The record decoded from values for the first fields. */
  function Decoded(fields: seq<Str>, values: seq<Str>): (r: Option<Flat>)
    requires |values| <= |fields|
    decreases |values|
  {
    if values == [] then Some(map[])
    else
      var n := |values| - 1;
      var before, v := Decoded(fields, values[..n]), Unescaped(values[n]);
      if before.Some? && v.Some? then Some(before.value[fields[n] := v.value]) else None
  }

  lemma {:induction false} DecodedEncoded(safe: set<byte>, fields: seq<Str>, flat: Flat, n: nat)
    requires n <= |fields|
    ensures Decoded(fields, EscapedAll(safe, FieldValues(fields[..n], flat))) == Some(FieldRecord(fields[..n], flat))
    decreases n
  {
    if n > 0 {
      DecodedEncoded(safe, fields, flat, n - 1);
      EncodedStep(safe, fields, flat, n);
      RecordStep(fields, flat, n);
      EscapeRoundTrip(safe, if fields[n - 1] in flat then flat[fields[n - 1]] else []);
      hide Escaped, Unescaped, EscapedAll, FieldValues, FieldRecord;
    }
  }

  lemma EncodedStep(safe: set<byte>, fields: seq<Str>, flat: Flat, n: nat)
    requires 0 < n <= |fields|
    ensures var escaped := EscapedAll(safe, FieldValues(fields[..n], flat));
            && |escaped| == n && escaped[..n - 1] == EscapedAll(safe, FieldValues(fields[..n - 1], flat))
            && escaped[n - 1] == Escaped(safe, if fields[n - 1] in flat then flat[fields[n - 1]] else [])
  {
    hide Escaped;
    assert forall i :: 0 <= i < n - 1 ==> fields[..n][i] == fields[..n - 1][i];
  }

  lemma RecordStep(fields: seq<Str>, flat: Flat, n: nat)
    requires 0 < n <= |fields|
    ensures var k := fields[n - 1];
            FieldRecord(fields[..n], flat)
            == FieldRecord(fields[..n - 1], flat)[k := if k in flat then flat[k] else []]
  {
    assert fields[..n] == fields[..n - 1] + [fields[n - 1]];
  }

  lemma SomeLeft(done: set<byte>, all: set<byte>)
    requires done < all
    ensures exists c: byte :: c in all && c !in done
  {
    var c :| c in all && c !in done;
  }

  class PercentCodec {
    const fields: seq<Str>
    const delim: byte
    /** The characters left unescaped. */
    const safe: set<byte>
    var chrtohex: map<byte, Str>
    var hextochr: map<Str, byte>

    ghost predicate Valid()
      reads this
    {
      && (forall c: byte | 0 <= c < 256 :: c in chrtohex && chrtohex[c] == EscapedOne(safe, c))
      && TableOk(hextochr)
    }

    /** Builds the tables. */
    constructor (fields: seq<Str>, delim: byte, safe: Str, unsafe: Str)
      ensures Valid() && this.fields == fields && this.delim == delim
      ensures this.safe == SafeSet(safe, unsafe, delim)
    {
      this.fields, this.delim, this.safe := fields, delim, SafeSet(safe, unsafe, delim);
      chrtohex, hextochr := map[], map[];
      new;
      FillChrtohex();
      FillHextochr();
    }

    method FillChrtohex()
      modifies this`chrtohex
      ensures forall c: byte | 0 <= c < 256 :: c in chrtohex && chrtohex[c] == EscapedOne(safe, c)
    {
      hide LowerHex;
      chrtohex := map[];
      for i := 0 to 256
        invariant forall c: byte | 0 <= c < i :: c in chrtohex && chrtohex[c] == Coded({}, c)
      {
        chrtohex := chrtohex[i := [PERCENT] + LowerHex(i)];
      }
      var done: set<byte> := {};
      while done != safe
        invariant done <= safe
        invariant forall c: byte | 0 <= c < 256 :: c in chrtohex && chrtohex[c] == Coded(done, c)
        decreases safe - done
      {
        SomeLeft(done, safe);
        var c: byte :| c in safe && c !in done;
        chrtohex := chrtohex[c := [c]];
        done := done + {c};
      }
      chrtohex := chrtohex[PERCENT := [PERCENT, PERCENT]];
    }

    method FillHextochr()
      modifies this`hextochr
      ensures TableOk(hextochr)
    {
      hextochr := map[];
      for i := 0 to 256
        invariant forall k :: k in hextochr ==> |k| == 2 && IsHex(k[0]) && IsHex(k[1]) && CodeChar(k) == Some(hextochr[k])
        invariant forall c: byte | 0 <= c < i :: LowerHex(c) in hextochr && UpperHex(c) in hextochr
      {
        LowerHexRead(i);
        UpperHexRead(i);
        hextochr := hextochr[LowerHex(i) := i][UpperHex(i) := i];
      }
      forall code: Str | |code| == 2 && IsHex(code[0]) && IsHex(code[1])
        ensures code in hextochr <==> CodeChar(code).Some?
      {
        CodeCharIsTable(code);
      }
      hextochr := hextochr[[PERCENT] := PERCENT];
    }

    function Escape(s: Str): (r: Str)
      requires Valid()
      reads this
      ensures r == Escaped(safe, s)
    {
      if s == [] then [] else chrtohex[s[0]] + Escape(s[1..])
    }

    /** Substitutes every match of the pattern, a percent sign followed by another or by two hex digits. */
    function Unescape(s: Str): (r: Option<Str>)
      requires Valid()
      reads this
      ensures r == Unescaped(s)
      decreases |s|
    {
      if s == [] then Some([])
      else if s[0] == PERCENT && |s| >= 2 && s[1] == PERCENT then
        assert s[1..2] == [PERCENT];
        Prepend(hextochr[s[1..2]], Unescape(s[2..]))
      else if s[0] == PERCENT && |s| >= 3 && IsHex(s[1]) && IsHex(s[2]) then
        if s[1..3] in hextochr then Prepend(hextochr[s[1..3]], Unescape(s[3..])) else None
      else Prepend(s[0], Unescape(s[1..]))
    }

    /** Encodes a flat record as a line. */
    method Encode(flat: Flat) returns (line: Str)
      requires Valid() && fields != []
      ensures line == Join(delim, EscapedAll(safe, FieldValues(fields, flat)))
    {
      hide Escaped, Join;
      var values: seq<Str> := [];
      for i := 0 to |fields|
        invariant |values| == i
        invariant forall j :: 0 <= j < i ==> values[j] == Escaped(safe, FieldValues(fields, flat)[j])
      {
        var v := if fields[i] in flat then flat[fields[i]] else [];
        values := values + [Escape(v)];
      }
      assert values == EscapedAll(safe, FieldValues(fields, flat));
      line := Join(delim, values);
    }

    /** Decodes a line into a flat record, or fails on a code that is not in the table. */
    method Decode(line: Str) returns (flat: Option<Flat>)
      requires Valid() && fields != []
      ensures flat == Decoded(fields, Values(delim, line, |fields|))
    {
      var values := Values(delim, line, |fields|);
      var record: Flat := map[];
      for i := 0 to |values|
        invariant Decoded(fields, values[..i]) == Some(record)
      {
        assert values[..i + 1][..i] == values[..i];
        var v := Unescape(values[i]);
        if v.None? {
          LaterFails(fields, values, i + 1);
          return None;
        }
        record := record[fields[i] := v.value];
      }
      assert values[..|values|] == values;
      flat := Some(record);
    }

    /** Writes a record and reads it back: the codec's fields are all there, with their values. */
    method Transcribe(flat: Flat) returns (record: Option<Flat>)
      requires Valid() && fields != [] && LinesOk(safe, delim, |fields|)
      ensures record == Some(FieldRecord(fields, flat))
    {
      var line := Encode(flat);
      LineRecovered(safe, delim, FieldValues(fields, flat));
      DecodedEncoded(safe, fields, flat, |fields|);
      assert fields[..|fields|] == fields;
      record := Decode(line);
    }
  }

  lemma {:induction false} LaterFails(fields: seq<Str>, values: seq<Str>, n: nat)
    requires n <= |values| <= |fields| && Decoded(fields, values[..n]).None?
    ensures Decoded(fields, values).None?
    decreases |values|
  {
    if n < |values| {
      assert values[..|values| - 1][..n] == values[..n];
      LaterFails(fields, values[..|values| - 1], n);
    } else {
      assert values[..n] == values;
    }
  }

  /** The table knows the percent sign and exactly the codes that stand for a character. */
  ghost predicate TableOk(hextochr: map<Str, byte>) {
    && [PERCENT] in hextochr && hextochr[[PERCENT]] == PERCENT
    && forall code {:trigger code in hextochr} :: |code| == 2 && IsHex(code[0]) && IsHex(code[1]) ==>
         (code in hextochr <==> CodeChar(code).Some?)
         && (code in hextochr ==> CodeChar(code) == Some(hextochr[code]))
  }
}
