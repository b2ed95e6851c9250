/** The in-place stack encoder (encoder.c). All frames write into one array; a child frame starts RESERVE bytes
    past its parent's position and is moved left, under its key and length, when it is closed. */
module Encoder {
  import opened Wire
  import opened Schema
  import opened Scalars
  import opened Format
  import opened Buffers
  import opened Fields

  /** An encoder stack frame. `msg` is None in a packed repeated frame. */
  datatype Frame = Frame(buf: Buf, field: Option<Field>, msg: Option<nat>)

  /** The shape of a stack: every frame lies within the array, a child starts RESERVE past its parent's
      position and ends where the parent ends, and only the innermost frame can be a packed one. */
  predicate FramesOk(fs: seq<Frame>, size: nat) {
    && 1 <= |fs| <= MAX_DEPTH
    && fs[0].field.None? && fs[0].msg.Some? && fs[0].buf.base == 0
    && (forall i {:trigger fs[i]} :: 0 <= i < |fs| ==> fs[i].buf.Valid(size) && fs[i].buf.end == fs[0].buf.end)
    && (forall i {:trigger Linked(fs, i)} :: 0 < i < |fs| ==> Linked(fs, i))
  }

  predicate Linked(fs: seq<Frame>, i: nat)
    requires 0 < i < |fs|
  {
    ChildOk(fs[i - 1], fs[i])
  }

  predicate ChildOk(parent: Frame, child: Frame) {
    && parent.msg.Some?
    && child.buf.base == parent.buf.pos + RESERVE
    && child.field.Some?
    && match child.msg
       case Some(m) => child.field.value.typ.Message? && m == child.field.value.msg
       case None => IsPackedRepeated(child.field.value)
  }

  /** Frames further in start past the positions of all frames further out. */
  lemma {:induction false} FramesOrdered(fs: seq<Frame>, size: nat, i: nat, j: nat)
    requires FramesOk(fs, size) && i < j < |fs|
    ensures fs[i].buf.pos + RESERVE <= fs[j].buf.base
    decreases j
  {
    assert Linked(fs, j);
    if i < j - 1 {
      FramesOrdered(fs, size, i, j - 1);
      assert fs[j - 1].buf.Valid(size);
    }
  }

  // ---- what a stack means ----

  /** An open message or packed field and the bytes encoded in it so far. */
  datatype Level = Level(field: Option<Field>, msg: Option<nat>, bytes: seq<byte>)

  function LevelOf(f: Frame, mem: seq<byte>): (l: Level)
    requires f.buf.Valid(|mem|)
  {
    Level(f.field, f.msg, mem[f.buf.base..f.buf.pos])
  }

  /** The open levels, outermost first. */
  function LevelsOf(fs: seq<Frame>, mem: seq<byte>): (ls: seq<Level>)
    requires FramesOk(fs, |mem|)
    ensures |ls| == |fs|
    ensures forall i {:trigger ls[i]} :: 0 <= i < |fs| ==> ls[i] == LevelOf(fs[i], mem)
  {
    seq(|fs|, i requires 0 <= i < |fs| => LevelOf(fs[i], mem))
  }

  /** `ls` with `b` appended to its innermost level. */
  function Append(ls: seq<Level>, b: seq<byte>): (r: seq<Level>)
    requires ls != []
    ensures |r| == |ls|
  {
    var top := ls[|ls| - 1];
    ls[|ls| - 1 := top.(bytes := top.bytes + b)]
  }

  /** The stack with the innermost position advanced by `n`. */
  function Advance(fs: seq<Frame>, n: nat): (gs: seq<Frame>)
    requires fs != []
  {
    var top := fs[|fs| - 1];
    fs[|fs| - 1 := top.(buf := top.buf.(pos := top.buf.pos + n))]
  }

  lemma AdvanceOk(fs: seq<Frame>, n: nat, size: nat)
    requires FramesOk(fs, size) && fs[|fs| - 1].buf.pos + n <= fs[|fs| - 1].buf.end
    ensures FramesOk(Advance(fs, n), size)
  {
    var gs := Advance(fs, n);
    forall i | 0 <= i < |gs| ensures gs[i].buf.Valid(size) && gs[i].buf.end == gs[0].buf.end {
      assert fs[i].buf.Valid(size);
    }
    forall i | 0 < i < |gs| ensures Linked(gs, i) {
      assert Linked(fs, i);
    }
  }

  lemma LevelAfterWrite(fs: seq<Frame>, mem: seq<byte>, b: seq<byte>, i: nat)
    requires FramesOk(fs, |mem|) && fs[|fs| - 1].buf.pos + |b| <= fs[|fs| - 1].buf.end
    requires i < |fs|
    ensures fs[|fs| - 1].buf.end <= |mem| && FramesOk(Advance(fs, |b|), |mem|)
    ensures LevelOf(Advance(fs, |b|)[i], Splice(mem, fs[|fs| - 1].buf.pos, b)) == Append(LevelsOf(fs, mem), b)[i]
  {
    AdvanceOk(fs, |b|, |mem|);
    var k := |fs| - 1;
    var f, at := fs[i], fs[k].buf.pos;
    assert f.buf.Valid(|mem|) && fs[k].buf.Valid(|mem|);
    if i < k {
      FramesOrdered(fs, |mem|, i, k);
      SpliceElsewhere(mem, at, b, f.buf.base, f.buf.pos);
    } else {
      SpliceAppends(mem, at, b, f.buf.base);
    }
  }

  /** Writing at the innermost position appends to the innermost level and leaves every outer level as it was. */
  lemma LevelsAfterWrite(fs: seq<Frame>, mem: seq<byte>, b: seq<byte>)
    requires FramesOk(fs, |mem|) && fs[|fs| - 1].buf.pos + |b| <= fs[|fs| - 1].buf.end
    ensures fs[|fs| - 1].buf.end <= |mem| && FramesOk(Advance(fs, |b|), |mem|)
    ensures LevelsOf(Advance(fs, |b|), Splice(mem, fs[|fs| - 1].buf.pos, b)) == Append(LevelsOf(fs, mem), b)
  {
    LevelAfterWrite(fs, mem, b, 0);
    hide FramesOk, LevelOf, Splice;
    var ls := LevelsOf(Advance(fs, |b|), Splice(mem, fs[|fs| - 1].buf.pos, b));
    forall i | 0 <= i < |fs| ensures ls[i] == Append(LevelsOf(fs, mem), b)[i] {
      LevelAfterWrite(fs, mem, b, i);
    }
  }

  /** Dropping the innermost frame drops its level. */
  lemma LevelsAfterPop(fs: seq<Frame>, mem: seq<byte>)
    requires FramesOk(fs, |mem|) && |fs| >= 2
    ensures FramesOk(fs[..|fs| - 1], |mem|)
    ensures LevelsOf(fs[..|fs| - 1], mem) == LevelsOf(fs, mem)[..|fs| - 1]
  {
    var gs := fs[..|fs| - 1];
    forall i | 0 < i < |gs| ensures Linked(gs, i) {
      assert Linked(fs, i);
    }
  }

  /** Pushing a frame behind the reserve opens an empty level. */
  lemma LevelsAfterPush(fs: seq<Frame>, mem: seq<byte>, f: Frame)
    requires FramesOk(fs, |mem|) && |fs| < MAX_DEPTH
    requires ChildOk(fs[|fs| - 1], f)
    requires f.buf.base == f.buf.pos <= f.buf.end == fs[|fs| - 1].buf.end
    ensures FramesOk(fs + [f], |mem|)
    ensures LevelsOf(fs + [f], mem) == LevelsOf(fs, mem) + [Level(f.field, f.msg, [])]
  {
    var gs := fs + [f];
    assert fs[|fs| - 1].buf.Valid(|mem|);
    forall i | 0 < i < |gs| ensures Linked(gs, i) {
      if i < |fs| { assert Linked(fs, i); }
    }
    forall i | 0 <= i < |gs| ensures gs[i].buf.Valid(|mem|) && gs[i].buf.end == gs[0].buf.end {
      if i < |fs| { assert gs[i] == fs[i]; }
    }
    assert gs[..|fs|] == fs;
    assert mem[f.buf.base..f.buf.pos] == [];
  }

  /** A completed write at the innermost position, seen as levels. */
  lemma LevelsAfterWrote(fs: seq<Frame>, gs: seq<Frame>, mem: seq<byte>, mem': seq<byte>, b: seq<byte>)
    requires FramesOk(fs, |mem|) && |gs| == |fs|
    requires var k := |fs| - 1;
             && gs[..k] == fs[..k] && gs[k] == fs[k].(buf := gs[k].buf)
             && Wrote(mem, mem', fs[k].buf, gs[k].buf, b, Ok)
    ensures FramesOk(gs, |mem'|)
    ensures LevelsOf(gs, mem') == Append(LevelsOf(fs, mem), b)
  {
    assert b[..|b|] == b;
    assert gs == Advance(fs, |b|);
    LevelsAfterWrite(fs, mem, b);
  }

  // ---- the calls as steps between abstract states ----

  /** The open levels and the bytes left in the innermost one. */
  datatype State = State(levels: seq<Level>, left: nat) {
    function Top(): (l: Level)
      requires levels != []
    {
      levels[|levels| - 1]
    }

    function Outer(): (ls: seq<Level>)
      requires levels != []
    {
      levels[..|levels| - 1]
    }

    predicate InPacked()
      requires levels != []
    {
      Top().msg.None?
    }
  }

  /** A call on the encoder. */
  datatype Op = Add(f: Field, v: Value) | OpenNested(f: Field) | CloseNested | OpenPacked(f: Field) | ClosePacked

  /** What the source asserts or expects of its callers: plain values for plain fields, numeric packed fields,
      no nesting in packed mode, no more than MAX_DEPTH frames, and bodies shorter than 2^35 bytes. */
  predicate Legal(st: State, op: Op) {
    && st.levels != []
    && match op
       case Add(f, v) => !TakesBody(f, st.InPacked()) && Fits(f.typ, v)
       case OpenNested(f) => f.typ.Message? && !IsPackedRepeated(f) && !st.InPacked() && |st.levels| < MAX_DEPTH
       case CloseNested => !st.InPacked() && Closable(st)
       case OpenPacked(f) => PackedField(f) && !st.InPacked() && |st.levels| < MAX_DEPTH
       case ClosePacked => st.InPacked() && Closable(st)
  }

  predicate Closable(st: State) {
    |st.levels| >= 2 && st.Top().field.Some? && |st.Top().bytes| < TWO35
  }

  datatype Outcome = Next(st: State) | Fail(err: Err)

  /** What a call does. Closing a level never runs out of room. */
  function Step(descs: Descs, st: State, op: Op): (r: Outcome)
    requires Legal(st, op)
    ensures r.Next? ==> r.st.levels != []
  {
    match op
    case Add(f, v) =>
      var b := FieldBytes(f, st.InPacked(), ToWire(f.typ, v));
      if st.InPacked() && Some(f) != st.Top().field then Fail(InvalidField)
      else if !st.InPacked() && f !in FieldsOf(descs, st.Top().msg.value) then Fail(UnknownField)
      else if |b| > st.left then Fail(EndOfBuf)
      else Next(State(Append(st.levels, b), st.left - |b|))
    case OpenNested(f) =>
      if st.left < RESERVE then Fail(EndOfBuf)
      else Next(State(st.levels + [Level(Some(f), Some(f.msg), [])], st.left - RESERVE))
    case CloseNested => Close(descs, st)
    case OpenPacked(f) =>
      if st.left < RESERVE then Fail(EndOfBuf)
      else Next(State(st.levels + [Level(Some(f), None, [])], st.left - RESERVE))
    case ClosePacked => Close(descs, st)
  }

  /** Closing a level appends its key, length and body to the level around it. */
  function Close(descs: Descs, st: State): (r: Outcome)
    requires |st.levels| >= 2 && st.Top().field.Some?
    ensures r.Next? ==> r.st.levels != []
  {
    var parent := State(st.Outer(), st.left + |st.Top().bytes| + RESERVE);
    var b := Record(st.Top().field.value, WString(st.Top().bytes));
    if parent.InPacked() || st.Top().field.value !in FieldsOf(descs, parent.Top().msg.value) then Fail(UnknownField)
    else if |b| > parent.left then Fail(EndOfBuf)
    else Next(State(Append(parent.levels, b), parent.left - |b|))
  }

  class Encoder {
    const descs: Descs
    const stack: array<Frame>
    var depth: nat
    var packed: bool
    /** The memory the frames point into. */
    var data: array<byte>

    ghost predicate Valid()
      reads this, stack
    {
      && stack.Length == MAX_DEPTH
      && 1 <= depth <= MAX_DEPTH
      && FramesOk(stack[..depth], data.Length)
      && packed == stack[depth - 1].msg.None?
    }

    ghost function Frames(): (fs: seq<Frame>)
      requires Valid()
      reads this, stack
    {
      stack[..depth]
    }

    ghost function Top(): (f: Frame)
      requires Valid()
      reads this, stack
    {
      stack[depth - 1]
    }

    /** The bytes encoded so far in every open message, outermost first. */
    ghost function Levels(): (ls: seq<Level>)
      requires Valid()
      reads this, stack, data
      ensures |ls| == depth
    {
      LevelsOf(stack[..depth], data[..])
    }

    ghost function Abstract(): (st: State)
      requires Valid()
      reads this, stack, data
      ensures st.levels != []
    {
      State(Levels(), Top().buf.Left())
    }

    constructor Init(descs: Descs)
      ensures this.descs == descs && depth == 0
      ensures stack.Length == MAX_DEPTH && fresh(stack) && fresh(data)
    {
      this.descs := descs;
      stack := new Frame[MAX_DEPTH](_ => Frame(Buf(0, 0, 0), None, None));
      data := new byte[0];
      depth := 0;
      packed := false;
    }

    /** Starts a message of kind `m` in the first `len` bytes of `data`. */
    method Start(m: nat, data: array<byte>, len: nat)
      requires stack.Length == MAX_DEPTH && len <= data.Length
      modifies this, stack
      ensures Valid() && depth == 1 && this.data == data
      ensures Abstract() == State([Level(None, Some(m), [])], len)
    {
      depth := 1;
      packed := false;
      this.data := data;
      stack[0] := Frame(BufInit(0, len), None, Some(m));
    }

    /** The size of the encoded message. */
    method Finish() returns (size: nat)
      requires Valid()
      ensures size <= data.Length && data[..size] == Levels()[0].bytes
    {
      assert stack[..depth][0] == stack[0];
      size := stack[0].buf.Used();
    }

    /** Finds the field among those of the open message, as the address comparison loop does. */
    method Belongs(f: Field, m: nat) returns (found: bool)
      ensures found <==> f in FieldsOf(descs, m)
    {
      var fields := FieldsOf(descs, m);
      for i := 0 to |fields|
        invariant f !in fields[..i]
      {
        if fields[i] == f {
          return true;
        }
      }
      return false;
    }

    /** Encodes a field into the innermost frame. It succeeds exactly when the field may stand there and its
        bytes fit. A region argument must lie beyond the bytes written in front of it; its bytes may be
        overwritten only after they have been moved. */
    method AddField(f: Field, arg: Arg) returns (err: Err)
      requires Valid()
      requires ArgOk(f, packed, arg, data.Length)
      requires arg.Region? ==> !packed && Top().buf.pos + |Varint(Key(f, WtString))| + |Varint(arg.len)| <= arg.start
      modifies stack, data
      ensures Valid()
      ensures if packed then err.InvalidField? <==> Some(f) != old(Top()).field
              else err.UnknownField? <==> f !in FieldsOf(descs, old(Top()).msg.value)
      ensures err.Ok? || err.EndOfBuf? || err == if packed then InvalidField else UnknownField
      ensures err.InvalidField? || err.UnknownField? ==> data[..] == old(data[..]) && Frames() == old(Frames())
      ensures err.Ok? || err.EndOfBuf? ==>
                && Frames()[..depth - 1] == old(Frames())[..depth - 1]
                && Top() == old(Top()).(buf := Top().buf)
                && Wrote(old(data[..]), data[..], old(Top()).buf, Top().buf,
                         FieldBytes(f, packed, WireFor(f, packed, arg, old(data[..]))), err)
      ensures err.EndOfBuf? ==>
                Top().buf.pos == old(Top()).buf.pos
                                 + FieldKept(f, packed, WireFor(f, packed, arg, old(data[..])), old(Top()).buf.Left())
    {
      hide ToWire, EncWire, Fits, WireFor, Splice, FieldKept;
      var top := stack[depth - 1];
      if packed {
        if Some(f) != top.field {
          return InvalidField;
        }
      } else {
        var found := Belongs(f, top.msg.value);
        if !found {
          return UnknownField;
        }
      }
      var out;
      err, out := PutField(data, top.buf, f, packed, arg);
      stack[depth - 1] := top.(buf := out);
      AdvanceOk(old(Frames()), out.pos - top.buf.pos, data.Length);
      assert stack[..depth] == Advance(old(Frames()), out.pos - top.buf.pos);
    }

    /** Adds a plain value. */
    method AddValue(f: Field, v: Value) returns (err: Err)
      requires Valid() && Legal(Abstract(), Add(f, v))
      modifies stack, data
      ensures Valid()
      ensures Step(descs, old(Abstract()), Add(f, v)) == if err.Ok? then Next(Abstract()) else Fail(err)
    {
      hide ToWire, Fits, EncWire, LevelsOf, Step, Splice, Wrote, FieldBytes, WireFor;
      ghost var fs, mem := Frames(), data[..];
      assert fs[depth - 1] == stack[depth - 1];
      assert Abstract().Top() == LevelOf(stack[depth - 1], mem);
      err := AddField(f, Direct(v));
      AddIsStep(fs, stack[..depth], mem, data[..], descs, f, v, err);
    }

    /** Opens a nested message. When there is no room for the reserve the new frame is left without a buffer. */
    method NestedStart(f: Field) returns (err: Err)
      requires Valid() && Legal(Abstract(), OpenNested(f))
      modifies this`depth, stack
      ensures depth == old(depth) + 1
      ensures err.Ok? ==> Valid()
      ensures stack[..depth - 1] == old(Frames())
      ensures Step(descs, old(Abstract()), OpenNested(f)) == if err.Ok? then Next(Abstract()) else Fail(err)
    {
      ghost var fs := Frames();
      assert fs[depth - 1] == stack[depth - 1];
      err := Push(Some(f.msg), f);
      if err.Ok? {
        LevelsAfterPush(fs, data[..], stack[depth - 1]);
        assert stack[..depth] == fs + [stack[depth - 1]];
      }
    }

    /** Opens a packed repeated field and enters packed mode. */
    method PackedStart(f: Field) returns (err: Err)
      requires Valid() && Legal(Abstract(), OpenPacked(f))
      modifies this`depth, this`packed, stack
      ensures depth == old(depth) + 1
      ensures err.Ok? ==> Valid()
      ensures stack[..depth - 1] == old(Frames()) && packed == err.Ok?
      ensures Step(descs, old(Abstract()), OpenPacked(f)) == if err.Ok? then Next(Abstract()) else Fail(err)
    {
      ghost var fs := Frames();
      assert fs[depth - 1] == stack[depth - 1];
      err := Push(None, f);
      if err.Ok? {
        packed := true;
        LevelsAfterPush(fs, data[..], stack[depth - 1]);
        assert stack[..depth] == fs + [stack[depth - 1]];
      }
    }

    /** Pushes a frame behind the reserve. The frame counts as pushed even when the reserve does not fit. */
    method Push(m: Option<nat>, f: Field) returns (err: Err)
      requires Valid() && depth < MAX_DEPTH
      modifies this`depth, stack
      ensures depth == old(depth) + 1 <= stack.Length
      ensures stack[..depth - 1] == old(Frames())
      ensures err == if old(Top()).buf.Left() < RESERVE then EndOfBuf else Ok
      ensures err.Ok? ==>
                stack[depth - 1] == Frame(BufInit(old(Top()).buf.pos + RESERVE, old(Top()).buf.Left() - RESERVE), Some(f), m)
    {
      var parent := stack[depth - 1];
      assert stack[..depth][depth - 1] == parent;
      depth := depth + 1;
      stack[depth - 1] := stack[depth - 1].(field := Some(f), msg := m);
      if parent.buf.Left() < RESERVE {
        return EndOfBuf;
      }
      stack[depth - 1] := stack[depth - 1].(
        buf := BufInit(parent.buf.pos + RESERVE, parent.buf.Left() - RESERVE));
      return Ok;
    }

    /** Adds the body of a frame that has just been popped. There is always room: header and body take no
        more than the reserve and the body did. */
    method AddBody(frame: Frame) returns (err: Err)
      requires Valid() && frame.buf.Valid(data.Length) && frame.field.Some?
      requires FramesOk(Frames() + [frame], data.Length)
      requires frame.buf.Used() < TWO35
      modifies stack, data
      ensures Valid() && depth == old(depth) && !err.EndOfBuf?
      ensures Close(descs, State(LevelsOf(old(Frames()) + [frame], old(data[..])), frame.buf.Left()))
              == if err.Ok? then Next(Abstract()) else Fail(err)
    {
      hide ToWire, EncWire, Fits, LevelsOf, LevelOf, Close, Splice, Wrote, FieldBytes, WireFor, Record, Varint, Key;
      ghost var fs, mem := Frames() + [frame], data[..];
      assert fs[depth] == frame && fs[depth - 1] == stack[depth - 1];
      assert Linked(fs, depth);
      HeaderFitsReserve(frame.field.value, frame.buf.Used());
      RegionBytes(frame.field.value, frame.buf, mem);
      err := AddField(frame.field.value, Region(frame.buf.base, frame.buf.Used()));
      CloseIsStep(fs, stack[..depth], mem, data[..], descs, err);
    }

    /** Closes a nested message: its body moves left, under its key and length. */
    method NestedEnd() returns (err: Err)
      requires Valid() && Legal(Abstract(), CloseNested)
      modifies this`depth, stack, data
      ensures Valid() && depth == old(depth) - 1
      ensures Step(descs, old(Abstract()), CloseNested) == if err.Ok? then Next(Abstract()) else Fail(err)
      ensures !err.EndOfBuf?
    {
      hide Close;
      ghost var fs := Frames();
      LevelsAfterPop(fs, data[..]);
      var frame := stack[depth - 1];
      depth := depth - 1;
      assert fs == stack[..depth] + [frame];
      assert stack[..depth] == fs[..depth] && Linked(fs, depth);
      err := AddBody(frame);
    }

    /** Closes a packed repeated field and leaves packed mode. */
    method PackedEnd() returns (err: Err)
      requires Valid() && Legal(Abstract(), ClosePacked)
      modifies this`depth, this`packed, stack, data
      ensures Valid() && depth == old(depth) - 1 && !packed
      ensures Step(descs, old(Abstract()), ClosePacked) == if err.Ok? then Next(Abstract()) else Fail(err)
      ensures !err.EndOfBuf?
    {
      hide Close;
      ghost var fs := Frames();
      LevelsAfterPop(fs, data[..]);
      var frame := stack[depth - 1];
      depth := depth - 1;
      packed := false;
      assert fs == stack[..depth] + [frame];
      assert stack[..depth] == fs[..depth] && Linked(fs, depth);
      err := AddBody(frame);
    }
  }

  /** Writing a plain value at the innermost position, read as a step. */
  lemma AddIsStep(fs: seq<Frame>, gs: seq<Frame>, mem: seq<byte>, mem': seq<byte>, descs: Descs,
                  f: Field, v: Value, err: Err)
    requires FramesOk(fs, |mem|) && FramesOk(gs, |mem'|) && |gs| == |fs|
    requires fs[|fs| - 1].buf.Valid(|mem|) && gs[|gs| - 1].buf.Valid(|mem'|)
    requires Legal(State(LevelsOf(fs, mem), fs[|fs| - 1].buf.Left()), Add(f, v))
    requires var k := |fs| - 1;
             var packed := fs[k].msg.None?;
             if packed && Some(f) != fs[k].field then err.InvalidField?
             else if !packed && f !in FieldsOf(descs, fs[k].msg.value) then err.UnknownField?
             else gs[..k] == fs[..k] && gs[k] == fs[k].(buf := gs[k].buf)
                  && Wrote(mem, mem', fs[k].buf, gs[k].buf, FieldBytes(f, packed, WireFor(f, packed, Direct(v), mem)), err)
    ensures Step(descs, State(LevelsOf(fs, mem), fs[|fs| - 1].buf.Left()), Add(f, v))
            == if err.Ok? then Next(State(LevelsOf(gs, mem'), gs[|gs| - 1].buf.Left())) else Fail(err)
  {
    hide ToWire, Fits, EncWire, Splice;
    var k := |fs| - 1;
    var packed := fs[k].msg.None?;
    assert LevelsOf(fs, mem)[k] == LevelOf(fs[k], mem);
    assert WireFor(f, packed, Direct(v), mem) == WireFor(f, packed, Direct(v), []);
    if err.Ok? {
      LevelsAfterWrote(fs, gs, mem, mem', FieldBytes(f, packed, WireFor(f, packed, Direct(v), mem)));
    }
  }

  lemma RegionBytes(f: Field, buf: Buf, mem: seq<byte>)
    requires buf.Valid(|mem|) && TakesBody(f, false) && buf.Used() < TWO64
    ensures FieldBytes(f, false, WireFor(f, false, Region(buf.base, buf.Used()), mem))
            == Record(f, WString(mem[buf.base..buf.pos]))
  {
    hide Record, ToWire, Fits;
  }

  /** Writing a closed child's record at its parent's position, read as a step. There is always room: header
      and body take no more than the reserve and the body did. */
  lemma CloseIsStep(fs: seq<Frame>, gs: seq<Frame>, mem: seq<byte>, mem': seq<byte>, descs: Descs, err: Err)
    requires FramesOk(fs, |mem|) && |fs| >= 2 && FramesOk(gs, |mem'|) && |gs| == |fs| - 1
    requires fs[|fs| - 1].buf.Used() < TWO35
    requires Linked(fs, |fs| - 1)
    requires var k := |fs| - 2;
             var f := fs[k + 1].field.value;
             var body := mem[fs[k + 1].buf.base..fs[k + 1].buf.pos];
             if f in FieldsOf(descs, fs[k].msg.value)
             then gs[..k] == fs[..k] && gs[k] == fs[k].(buf := gs[k].buf)
                  && Wrote(mem, mem', fs[k].buf, gs[k].buf, Record(f, WString(body)), err)
             else err.UnknownField?
    ensures !err.EndOfBuf?
    ensures Close(descs, State(LevelsOf(fs, mem), fs[|fs| - 1].buf.Left()))
            == if err.Ok? then Next(State(LevelsOf(gs, mem'), gs[|gs| - 1].buf.Left())) else Fail(err)
  {
    hide EncWire, Splice, Record;
    var k := |fs| - 2;
    assert fs[k].buf.Valid(|mem|) && fs[k + 1].buf.Valid(|mem|);
    var f := fs[k + 1].field.value;
    var body := mem[fs[k + 1].buf.base..fs[k + 1].buf.pos];
    LevelsAfterPop(fs, mem);
    RecordWithinReserve(f, body);
    assert LevelsOf(fs, mem)[k] == LevelOf(fs[k], mem);
    if err.Ok? {
      LevelsAfterWrote(fs[..k + 1], gs, mem, mem', Record(f, WString(body)));
    }
  }

  lemma RecordWithinReserve(f: Field, body: seq<byte>)
    requires |body| < TWO35
    ensures |Record(f, WString(body))| <= RESERVE + |body|
  {
    HeaderFitsReserve(f, |body|);
  }

  /** Writes a field at a cursor: the key unless in packed mode, then the wire value. */
  method PutField(data: array<byte>, buf: Buf, f: Field, packed: bool, arg: Arg) returns (err: Err, out: Buf)
    requires buf.Valid(data.Length) && ArgOk(f, packed, arg, data.Length)
    requires arg.Region? ==> !packed && buf.pos + |Varint(Key(f, WtString))| + |Varint(arg.len)| <= arg.start
    modifies data
    ensures Wrote(old(data[..]), data[..], buf, out,
                  FieldBytes(f, packed, WireFor(f, packed, arg, old(data[..]))), err)
    ensures !err.Ok? ==>
              out == buf.(pos := buf.pos + FieldKept(f, packed, WireFor(f, packed, arg, old(data[..])), buf.Left()))
  {
    hide Wrote, Splice, ToWire, FromWire, EncWire, Varint, Key, Fits, WireKept;
    ghost var mem := data[..];
    ghost var wire := WireFor(f, packed, arg, mem);
    if packed {
      err, out := PutWire(data, buf, f, packed, arg);
      return;
    }
    var wt := if TakesBody(f, packed) then WtString else FieldWireType(f.typ);
    err, out := PutVarint(data, buf, Key(f, wt));
    ghost var mem1 := data[..];
    if !err.Ok? {
      WroteShort(mem, mem1, buf, out, Varint(Key(f, wt)), EncWire(wire), err);
      return;
    }
    RegionUntouched(mem, mem1, buf, out, Varint(Key(f, wt)), arg);
    var key := out;
    err, out := PutWire(data, key, f, packed, arg);
    WroteThen(mem, mem1, data[..], buf, key, out, Varint(Key(f, wt)), EncWire(wire), err);
  }

  /** Bytes written in front of a region leave it intact. */
  lemma RegionUntouched(mem: seq<byte>, mem': seq<byte>, buf: Buf, out: Buf, b: seq<byte>, arg: Arg)
    requires Wrote(mem, mem', buf, out, b, Ok)
    requires arg.Region? ==> buf.pos + |b| <= arg.start && arg.start + arg.len <= |mem|
    ensures out.Valid(|mem'|) && |mem'| == |mem| && out == buf.(pos := buf.pos + |b|)
    ensures arg.Region? ==> mem'[arg.start..arg.start + arg.len] == mem[arg.start..arg.start + arg.len]
  {
  }

  /** Writes a wire value at a cursor. */
  method PutWire(data: array<byte>, buf: Buf, f: Field, packed: bool, arg: Arg) returns (err: Err, out: Buf)
    requires buf.Valid(data.Length) && ArgOk(f, packed, arg, data.Length)
    requires arg.Region? ==> buf.pos + |Varint(arg.len)| <= arg.start
    modifies data
    ensures Wrote(old(data[..]), data[..], buf, out, EncWire(WireFor(f, packed, arg, old(data[..]))), err)
    ensures !err.Ok? ==>
              out == buf.(pos := buf.pos + WireKept(WireFor(f, packed, arg, old(data[..])), buf.Left()))
  {
    hide Wrote, Splice, ToWire, Fits, Varint;
    if TakesBody(f, packed) {
      err, out := PutBody(data, buf, arg);
    } else {
      match ToWire(f.typ, arg.v)
      case WVarint(v) => err, out := PutVarint(data, buf, v);
      case W64(w) => err, out := Put64(data, buf, w);
      case WString(s) =>
        TextFits(f.typ, arg.v, s);
        err, out := PutBody(data, buf, Direct(Str(s)));
      case W32(d) => err, out := Put32(data, buf, d);
    }
  }

  lemma TextFits(t: Type, v: Value, s: seq<byte>)
    requires Fits(t, v) && ToWire(t, v) == WString(s)
    ensures Fits(Message, Str(s))
  {
  }

  /** Writes a length and a body: copied in from elsewhere, or moved left within the array. */
  method PutBody(data: array<byte>, buf: Buf, arg: Arg) returns (err: Err, out: Buf)
    requires buf.Valid(data.Length)
    requires match arg
             case Direct(v) => Fits(Message, v)
             case Region(start, len) => start + len <= data.Length && len < TWO64 && buf.pos + |Varint(len)| <= start
    modifies data
    ensures Wrote(old(data[..]), data[..], buf, out,
                  EncWire(WString(match arg
                                  case Direct(v) => v.data
                                  case Region(start, len) => old(data[start..start + len]))), err)
    ensures !err.Ok? ==>
              var n := |Varint(match arg case Direct(v) => |v.data| case Region(_, len) => len)|;
              out == buf.(pos := buf.pos + if buf.Left() < n then buf.Left() else n)
  {
    hide Wrote, Splice, ToWire, Varint;
    ghost var mem := data[..];
    ghost var body := match arg case Direct(v) => v.data case Region(start, len) => mem[start..start + len];
    var len := match arg case Direct(v) => |v.data| case Region(_, len) => len;
    err, out := PutVarint(data, buf, len);
    ghost var mem1 := data[..];
    if !err.Ok? {
      WroteShort(mem, mem1, buf, out, Varint(len), body, err);
      return;
    }
    RegionUntouched(mem, mem1, buf, out, Varint(len), arg);
    var at := out;
    err, out := PutBytes(data, at, arg);
    WroteThen(mem, mem1, data[..], buf, at, out, Varint(len), body, err);
  }

  /** Copies or moves a body to a cursor, all of it or nothing. */
  method PutBytes(data: array<byte>, buf: Buf, arg: Arg) returns (err: Err, out: Buf)
    requires buf.Valid(data.Length)
    requires match arg
             case Direct(v) => Fits(Message, v)
             case Region(start, len) => start + len <= data.Length && buf.pos <= start
    modifies data
    ensures Wrote(old(data[..]), data[..], buf, out,
                  match arg
                  case Direct(v) => v.data
                  case Region(start, len) => old(data[start..start + len]), err)
    ensures !err.Ok? ==> out == buf
  {
    hide Wrote, Splice;
    ghost var mem := data[..];
    ghost var body := match arg case Direct(v) => v.data case Region(start, len) => mem[start..start + len];
    var len := match arg case Direct(v) => |v.data| case Region(_, len) => len;
    if buf.Left() < len {
      NothingFits(mem, buf, body);
      return EndOfBuf, buf;
    }
    match arg {
      case Direct(v) => CopyIn(data, buf.pos, v.data);
      case Region(start, n) => MoveLeft(data, buf.pos, start, n);
    }
    AllFits(mem, data[..], buf, body);
    return Ok, buf.(pos := buf.pos + len);
  }

  lemma NothingFits(mem: seq<byte>, buf: Buf, b: seq<byte>)
    requires buf.Valid(|mem|) && |b| > buf.Left()
    ensures Wrote(mem, mem, buf, buf, b, EndOfBuf)
  {
  }

  lemma AllFits(mem: seq<byte>, mem': seq<byte>, buf: Buf, b: seq<byte>)
    requires buf.Valid(|mem|) && |b| <= buf.Left() && mem' == Splice(mem, buf.pos, b)
    ensures Wrote(mem, mem', buf, buf.(pos := buf.pos + |b|), b, Ok)
  {
    assert b[..|b|] == b;
  }
}
