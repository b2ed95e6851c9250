/** The iterative event decoder (decoder.c). */
module Decoder {
  import opened Wire
  import opened Schema
  import opened Scalars
  import opened Buffers
  import opened Parser
  import opened Reads

  /** A decoder stack frame: the bytes still to decode and the message they belong to. */
  datatype Frame = Frame(buf: Buf, msg: nat)

  // ---- the stack ----

  /** The shape of a decoder stack: every cursor lies within its bytes, every child's bytes lie within what its
      parent has already consumed, and every parent has consumed something. */
  ghost predicate StackOk(fs: seq<Frame>, size: nat) {
    && |fs| <= MAX_DEPTH
    && (forall i {:trigger fs[i]} :: 0 <= i < |fs| ==> fs[i].buf.Valid(size))
    && (forall i {:trigger Linked(fs, i)} :: 0 < i < |fs| ==> Linked(fs, i))
  }

  ghost predicate Linked(fs: seq<Frame>, i: nat)
    requires 0 < i < |fs|
  {
    var parent, child := fs[i - 1].buf, fs[i].buf;
    parent.base < parent.pos && parent.base <= child.base && child.end <= parent.pos
  }

  /** The bytes not decoded yet, over all frames. */
  ghost function SumLeft(fs: seq<Frame>, size: nat): (n: nat)
    requires StackOk(fs, size)
  {
    if fs == [] then 0
    else
      StackPop(fs, size);
      SumLeft(fs[..|fs| - 1], size) + fs[|fs| - 1].buf.Left()
  }

  lemma StackPop(fs: seq<Frame>, size: nat)
    requires StackOk(fs, size) && fs != []
    ensures StackOk(fs[..|fs| - 1], size)
  {
    var gs := fs[..|fs| - 1];
    forall i | 0 < i < |gs| ensures Linked(gs, i) {
      assert Linked(fs, i);
    }
  }

  /** The stack with the innermost cursor moved to `pos`. */
  ghost function MoveTop(fs: seq<Frame>, pos: nat): seq<Frame>
    requires fs != []
  {
    fs[|fs| - 1 := fs[|fs| - 1].(buf := fs[|fs| - 1].buf.(pos := pos))]
  }

  lemma StackMove(fs: seq<Frame>, size: nat, pos: nat)
    requires StackOk(fs, size) && fs != []
    requires fs[|fs| - 1].buf.pos <= pos <= fs[|fs| - 1].buf.end
    ensures StackOk(MoveTop(fs, pos), size)
    ensures SumLeft(MoveTop(fs, pos), size) + (pos - fs[|fs| - 1].buf.pos) == SumLeft(fs, size)
  {
    var gs := MoveTop(fs, pos);
    assert fs[|fs| - 1].buf.Valid(size);
    forall i | 0 <= i < |gs| ensures gs[i].buf.Valid(size) {
      assert fs[i].buf.Valid(size);
    }
    forall i | 0 < i < |gs| ensures Linked(gs, i) {
      assert Linked(fs, i);
    }
    assert gs[..|gs| - 1] == fs[..|fs| - 1];
  }

  lemma StackPush(fs: seq<Frame>, size: nat, child: Frame)
    requires StackOk(fs, size) && fs != [] && |fs| < MAX_DEPTH && child.buf.Valid(size)
    requires var parent := fs[|fs| - 1].buf;
             parent.base < parent.pos && parent.base <= child.buf.base && child.buf.end <= parent.pos
    ensures StackOk(fs + [child], size)
    ensures SumLeft(fs + [child], size) == SumLeft(fs, size) + child.buf.Left()
  {
    var gs := fs + [child];
    forall i | 0 <= i < |gs| ensures gs[i].buf.Valid(size) {
      if i < |fs| { assert fs[i].buf.Valid(size); }
    }
    forall i | 0 < i < |gs| ensures Linked(gs, i) {
      if i < |fs| { assert Linked(fs, i); }
    }
    assert gs[..|gs| - 1] == fs;
  }

  // ---- what is still to come ----

  /** The parse of what the innermost frame has left. */
  ghost function TopParse(descs: Descs, root: nat, data: seq<byte>, top: Frame, depth: nat,
                          last: Option<Field>, packed: bool): Parsed
    requires top.buf.Valid(|data|)
  {
    if packed && last.Some? then ParsePacked(top.msg, last.value, Rest(data, top.buf))
    else ParseFields(descs, root, top.msg, Rest(data, top.buf), last, depth, true)
  }

  /** The events still to come from a stack: what the innermost frame has left, its end, and then the rest of
      the frames around it. */
  ghost function ToCome(descs: Descs, root: nat, data: seq<byte>, fs: seq<Frame>, last: Option<Field>,
                        packed: bool): (p: Parsed)
    requires StackOk(fs, |data|)
    decreases |fs|
  {
    if fs == [] then Parsed([], Done, last)
    else
      StackPop(fs, |data|);
      var top := fs[|fs| - 1];
      var p := TopParse(descs, root, data, top, |fs|, last, packed);
      Then(Ended(top.msg, |fs|, packed, p), ToCome(descs, root, data, fs[..|fs| - 1], p.last, false))
  }

  /** Passing over some of the innermost frame's bytes. */
  lemma ComeMove(descs: Descs, root: nat, data: seq<byte>, fs: seq<Frame>, last: Option<Field>, packed: bool,
                 pos: nat, last': Option<Field>, es: seq<Event>)
    requires StackOk(fs, |data|) && fs != []
    requires fs[|fs| - 1].buf.pos <= pos <= fs[|fs| - 1].buf.end
    requires var gs := MoveTop(fs, pos);
             gs[|gs| - 1].buf.Valid(|data|)
             && TopParse(descs, root, data, fs[|fs| - 1], |fs|, last, packed)
                == Emit(es, TopParse(descs, root, data, gs[|gs| - 1], |gs|, last', packed))
    ensures StackOk(MoveTop(fs, pos), |data|)
    ensures ToCome(descs, root, data, fs, last, packed)
            == Emit(es, ToCome(descs, root, data, MoveTop(fs, pos), last', packed))
  {
    hide TopParse;
    StackMove(fs, |data|, pos);
    StackPop(fs, |data|);
    var gs, k := MoveTop(fs, pos), |fs| - 1;
    assert gs[..k] == fs[..k];
    var q := TopParse(descs, root, data, gs[k], |gs|, last', packed);
    var e, outer := Parsed([MsgEnd(gs[k].msg, |gs|, packed)], Done, q.last),
                    ToCome(descs, root, data, gs[..k], q.last, false);
    EmitThen(es, q, e);
    EmitThen(es, Then(q, e), outer);
  }

  /** Pushing a frame for a body the innermost frame has just passed over. */
  lemma ComePush(descs: Descs, root: nat, data: seq<byte>, fs: seq<Frame>, last: Option<Field>,
                 pos: nat, es: seq<Event>, child: Frame, last': Option<Field>, packed: bool)
    requires StackOk(fs, |data|) && fs != [] && |fs| < MAX_DEPTH
    requires fs[|fs| - 1].buf.pos < pos <= fs[|fs| - 1].buf.end
    requires child.buf.Valid(|data|) && fs[|fs| - 1].buf.base <= child.buf.base && child.buf.end <= pos
    requires var gs := MoveTop(fs, pos);
             var inner := TopParse(descs, root, data, child, |fs| + 1, last', packed);
             gs[|gs| - 1].buf.Valid(|data|)
             && TopParse(descs, root, data, fs[|fs| - 1], |fs|, last, false)
                == Emit(es, Then(Framed(child.msg, |fs| + 1, packed, inner),
                                 TopParse(descs, root, data, gs[|gs| - 1], |gs|, inner.last, false)))
    ensures StackOk(MoveTop(fs, pos) + [child], |data|)
    ensures ToCome(descs, root, data, fs, last, false)
            == Emit(es + [MsgStart(child.msg, |fs| + 1, packed)],
                    ToCome(descs, root, data, MoveTop(fs, pos) + [child], last', packed))
  {
    hide TopParse;
    StackMove(fs, |data|, pos);
    var gs, k := MoveTop(fs, pos), |fs| - 1;
    StackPush(gs, |data|, child);
    StackPop(fs, |data|);
    assert (gs + [child])[..|gs|] == gs && gs[..k] == fs[..k];
    var start := [MsgStart(child.msg, |fs| + 1, packed)];
    var inner := TopParse(descs, root, data, child, |fs| + 1, last', packed);
    var body := Ended(child.msg, |fs| + 1, packed, inner);
    var q := TopParse(descs, root, data, gs[k], |gs|, inner.last, false);
    var whole := Then(Framed(child.msg, |fs| + 1, packed, inner), q);
    EmitThen(start, body, q);
    EmitEmit(es, start, Then(body, q));
    var p := Then(body, q);
    assert TopParse(descs, root, data, fs[k], |fs|, last, false) == Emit(es + start, p);
    var e, outer := Parsed([MsgEnd(gs[k].msg, |gs|, false)], Done, p.last),
                    ToCome(descs, root, data, gs[..k], p.last, false);
    EmitThen(es + start, p, e);
    EmitThen(es + start, Then(p, e), outer);
    ThenThen(body, q, e);
    ThenThen(body, Then(q, e), outer);
  }

  lemma TopParseEnd(descs: Descs, root: nat, data: seq<byte>, top: Frame, depth: nat,
                    last: Option<Field>, packed: bool)
    requires top.buf.Valid(|data|) && top.buf.Left() == 0
    requires packed ==> last.Some?
    ensures TopParse(descs, root, data, top, depth, last, packed) == Parsed([], Done, last)
  {
    assert Rest(data, top.buf) == [];
  }

  /** Nothing left in the innermost frame. */
  lemma ComePop(descs: Descs, root: nat, data: seq<byte>, fs: seq<Frame>, last: Option<Field>, packed: bool)
    requires StackOk(fs, |data|) && fs != [] && fs[|fs| - 1].buf.Left() == 0
    requires packed ==> last.Some?
    ensures StackOk(fs[..|fs| - 1], |data|)
    ensures ToCome(descs, root, data, fs, last, packed)
            == Emit([MsgEnd(fs[|fs| - 1].msg, |fs|, packed)],
                    ToCome(descs, root, data, fs[..|fs| - 1], last, false))
  {
    StackPop(fs, |data|);
    var top := fs[|fs| - 1];
    TopParseEnd(descs, root, data, top, |fs|, last, packed);
    EndedEmpty(top.msg, |fs|, packed, last);
    hide TopParse, Ended;
  }

  /** The innermost frame's parse ends for good. */
  lemma ComeStop(descs: Descs, root: nat, data: seq<byte>, fs: seq<Frame>, last: Option<Field>, packed: bool)
    requires StackOk(fs, |data|) && fs != []
    ensures fs[|fs| - 1].buf.Valid(|data|)
    ensures var p := TopParse(descs, root, data, fs[|fs| - 1], |fs|, last, packed);
            !p.status.Done? ==> ToCome(descs, root, data, fs, last, packed) == p
  {
  }

  // ---- one pass of the decoding loop, seen from what is still to come ----

  /** A field that cannot be read ends the parse. */
  lemma FieldStops(descs: Descs, root: nat, data: seq<byte>, top: Frame, depth: nat, last: Option<Field>)
    requires top.buf.Valid(|data|) && top.buf.Left() > 0
    ensures var h := ReadField(descs, top.msg, Rest(data, top.buf), last, true);
            h.Stopped? ==> TopParse(descs, root, data, top, depth, last, false) == Parsed([], h.status, last)
  {
  }

  /** A field has been read up to `pos`, and `h` is what it is. */
  ghost predicate FieldAt(descs: Descs, data: seq<byte>, top: Frame, last: Option<Field>, pos: nat, h: Head) {
    && top.buf.Valid(|data|) && top.buf.pos < pos <= top.buf.end
    && ReadField(descs, top.msg, Rest(data, top.buf), last, true) == h
    && !h.Stopped? && h.used == pos - top.buf.pos
  }

  /** The child frame for the body that ends at `pos`. */
  function ChildFrame(pos: nat, len: nat, msg: nat): Frame
    requires len <= pos
  {
    Frame(BufInit(pos - len, len), msg)
  }

  lemma RestMoved(data: seq<byte>, buf: Buf, pos: nat)
    requires buf.Valid(|data|) && buf.pos <= pos <= buf.end
    ensures Rest(data, buf.(pos := pos)) == Rest(data, buf)[pos - buf.pos..]
  {
  }

  lemma ComeSkip(descs: Descs, root: nat, data: seq<byte>, fs: seq<Frame>, last: Option<Field>, pos: nat)
    requires StackOk(fs, |data|) && fs != []
    requires exists n :: FieldAt(descs, data, fs[|fs| - 1], last, pos, Skipped(n))
    ensures StackOk(MoveTop(fs, pos), |data|)
    ensures ToCome(descs, root, data, fs, last, false)
            == Emit([], ToCome(descs, root, data, MoveTop(fs, pos), last, false))
  {
    hide ReadField;
    var top := fs[|fs| - 1];
    RestMoved(data, top.buf, pos);
    ComeMove(descs, root, data, fs, last, false, pos, last, []);
  }

  lemma ComeScalar(descs: Descs, root: nat, data: seq<byte>, fs: seq<Frame>, last: Option<Field>, pos: nat,
                   f: Field, v: Value)
    requires StackOk(fs, |data|) && fs != []
    requires exists n :: FieldAt(descs, data, fs[|fs| - 1], last, pos, Scalar(f, v, n))
    ensures StackOk(MoveTop(fs, pos), |data|)
    ensures ToCome(descs, root, data, fs, last, false)
            == Emit([FieldEvent(fs[|fs| - 1].msg, f, Some(v))],
                    ToCome(descs, root, data, MoveTop(fs, pos), Some(f), false))
  {
    hide ReadField;
    var top := fs[|fs| - 1];
    RestMoved(data, top.buf, pos);
    ComeMove(descs, root, data, fs, last, false, pos, Some(f), [FieldEvent(top.msg, f, Some(v))]);
  }

  /** A body: the parse goes on inside it, unless the stack is full. */
  lemma ComeBody(descs: Descs, root: nat, data: seq<byte>, fs: seq<Frame>, last: Option<Field>, pos: nat,
                 f: Field, body: seq<byte>, packed: bool)
    requires StackOk(fs, |data|) && fs != [] && |body| < pos - fs[|fs| - 1].buf.pos <= |data|
    requires pos <= |data| && data[pos - |body|..pos] == body
    requires exists n :: FieldAt(descs, data, fs[|fs| - 1], last, pos,
                                 if packed then PackedBody(f, body, n) else Body(f, body, n))
    ensures |fs| >= MAX_DEPTH ==> ToCome(descs, root, data, fs, last, false).status.Unmodelled?
    ensures |fs| < MAX_DEPTH ==>
              var top := fs[|fs| - 1];
              var msg := if packed then top.msg else f.msg;
              var child := ChildFrame(pos, |body|, msg);
              && StackOk(MoveTop(fs, pos) + [child], |data|)
              && ToCome(descs, root, data, fs, last, false)
                 == Emit((if packed then [] else [FieldEvent(root, f, None)]) + [MsgStart(msg, |fs| + 1, packed)],
                         ToCome(descs, root, data, MoveTop(fs, pos) + [child], Some(f), packed))
  {
    hide ReadField;
    var top := fs[|fs| - 1];
    RestMoved(data, top.buf, pos);
    if |fs| >= MAX_DEPTH {
      ComeStop(descs, root, data, fs, last, false);
    } else {
      var msg := if packed then top.msg else f.msg;
      var child := ChildFrame(pos, |body|, msg);
      assert Rest(data, child.buf) == body;
      assert top.buf.Valid(|data|);
      ComePush(descs, root, data, fs, last, pos, if packed then [] else [FieldEvent(root, f, None)],
               child, Some(f), packed);
    }
  }

  /** An element of a packed field. */
  lemma ComeElement(descs: Descs, root: nat, data: seq<byte>, fs: seq<Frame>, f: Field)
    requires StackOk(fs, |data|) && fs != [] && fs[|fs| - 1].buf.Valid(|data|) && fs[|fs| - 1].buf.Left() > 0
    ensures var top := fs[|fs| - 1];
            var r := ReadWire(WireTypeCode(FieldWireType(f.typ)), Rest(data, top.buf));
            var p := ToCome(descs, root, data, fs, Some(f), true);
            if FieldWireType(f.typ).WtString? then p.status.Unmodelled?
            else match r
              case Stop(status) => p.events == [] && p.status == status
              case NoValue => p.status.Unmodelled?
              case Read(w, k) =>
                var gs := MoveTop(fs, top.buf.pos + k);
                && StackOk(gs, |data|)
                && p == Emit([FieldEvent(top.msg, f, Some(FromWire(f.typ, w)))],
                             ToCome(descs, root, data, gs, Some(f), true))
  {
    hide ReadWire, FromWire;
    var top := fs[|fs| - 1];
    var r := ReadWire(WireTypeCode(FieldWireType(f.typ)), Rest(data, top.buf));
    ComeStop(descs, root, data, fs, Some(f), true);
    if !FieldWireType(f.typ).WtString? && r.Read? {
      RestMoved(data, top.buf, top.buf.pos + r.used);
      ComeMove(descs, root, data, fs, Some(f), true, top.buf.pos + r.used, Some(f),
               [FieldEvent(top.msg, f, Some(FromWire(f.typ, r.w)))]);
    }
  }

  class Decoder {
    const descs: Descs
    const stack: array<Frame>
    var depth: nat
    var packed: bool
    /** The descriptor of the last field decoded. */
    var fieldDesc: Option<Field>
    /** The handler calls made so far. */
    var trace: seq<Event>

    constructor (descs: Descs)
      ensures this.descs == descs && stack.Length == MAX_DEPTH && fresh(stack)
    {
      this.descs := descs;
      stack := new Frame[MAX_DEPTH](_ => Frame(Buf(0, 0, 0), 0));
      depth, packed, fieldDesc, trace := 0, false, None, [];
    }

    ghost predicate Valid(data: seq<byte>)
      reads this, stack
    {
      && stack.Length == MAX_DEPTH && depth <= MAX_DEPTH
      && StackOk(stack[..depth], |data|)
      && stack[0].buf.base == 0 && stack[0].buf.end == |data|
      && (packed ==> depth > 0 && fieldDesc.Some?)
    }

    ghost function Left(data: seq<byte>): nat
      requires Valid(data)
      reads this, stack
    {
      SumLeft(stack[..depth], |data|)
    }

    /** The bytes left in the innermost frame. */
    function TopLeft(data: seq<byte>): nat
      requires Valid(data) && depth > 0
      reads this, stack
    {
      stack[depth - 1].buf.Left()
    }

    /** What the whole run amounts to: the events so far and those to come. */
    ghost function Total(root: nat, data: seq<byte>): Parsed
      requires Valid(data)
      reads this, stack
    {
      Emit(trace, ToCome(descs, root, data, stack[..depth], fieldDesc, packed))
    }

    /** The same at the top of the outer loop, where a frame not yet begun has its start event still to come. */
    ghost function TotalFromTop(root: nat, data: seq<byte>): Parsed
      requires Valid(data)
      reads this, stack
    {
      if depth > 0 && stack[depth - 1].buf.Used() == 0
      then Emit(trace + [MsgStart(stack[depth - 1].msg, depth, packed)],
                ToCome(descs, root, data, stack[..depth], fieldDesc, packed))
      else Total(root, data)
    }

    /** Decodes a message of kind `m`, calling the handlers as it goes. The calls, the result and the number of
        bytes used are those of the recursive parse. */
    method Decode(m: nat, data: seq<byte>) returns (err: Err, used: nat)
      requires stack.Length == MAX_DEPTH
      requires Defined(Parse(descs, m, data, true).status)
      modifies this, stack
      ensures trace == Parse(descs, m, data, true).events
      ensures err == if Parse(descs, m, data, true).status.Done? then Ok else EndOfBuf
      ensures err.Ok? ==> used == |data|
    {
      hide Valid, Total, TotalFromTop, Left, TopLeft, Parse;
      ghost var goal := Parse(descs, m, data, true);
      err, used := Ok, 0;
      Start(m, data);
      label Outer: while depth >= 1
        invariant Valid(data) && TotalFromTop(m, data) == goal && err.Ok?
        invariant depth == 0 ==> trace == goal.events && goal.status.Done? && stack[0].buf == Buf(0, |data|, |data|)
        decreases Left(data), depth
      {
        Begin(m, data);
        ghost var left, level := Left(data), depth;
        while TopLeft(data) > 0
          invariant depth == level && Valid(data) && Total(m, data) == goal && Left(data) <= left && err.Ok?
          decreases TopLeft(data)
        {
          var nested;
          err, nested := DecodeOne(m, data, goal);
          if !err.Ok? {
            return;
          }
          if nested {
            continue Outer;
          }
        }
        End(m, data);
      }
      used := stack[0].buf.Used();
    }

    /** Sets up the outermost frame. */
    method Start(m: nat, data: seq<byte>)
      requires stack.Length == MAX_DEPTH
      modifies this, stack
      ensures Valid(data) && depth == 1 && TotalFromTop(m, data) == Parse(descs, m, data, true)
    {
      hide ToCome, Parse, StackOk;
      depth, packed, fieldDesc, trace := 1, false, None, [];
      stack[0] := Frame(BufInit(0, |data|), m);
      assert stack[..1] == [stack[0]];
      StartTotal(descs, m, data, stack[..1]);
    }

    /** Notifies the start of a frame that has not been begun. */
    method Begin(ghost root: nat, ghost data: seq<byte>)
      requires Valid(data) && depth > 0
      modifies this`trace
      ensures Valid(data) && Total(root, data) == old(TotalFromTop(root, data)) && Left(data) == old(Left(data))
    {
      hide ToCome, SumLeft, StackOk;
      var frame := stack[depth - 1];
      assert frame == stack[..depth][depth - 1] && frame.buf.Valid(|data|) by { ValidAt(stack[..depth], |data|, depth - 1); }
      if frame.buf.Used() == 0 {
        trace := trace + [MsgStart(frame.msg, depth, packed)];
      }
    }

    /** Notifies the end of the innermost frame and pops it. */
    method End(ghost root: nat, ghost data: seq<byte>)
      requires Valid(data) && depth > 0 && TopLeft(data) == 0
      modifies this`trace, this`depth, this`packed
      ensures Valid(data) && depth == old(depth) - 1
      ensures TotalFromTop(root, data) == old(Total(root, data)) && Left(data) == old(Left(data))
      ensures depth == 0 ==>
                var goal := old(Total(root, data));
                trace == goal.events && goal.status.Done? && stack[0].buf == Buf(0, |data|, |data|)
    {
      hide ToCome;
      ghost var fs, k := stack[..depth], depth - 1;
      ComePop(descs, root, data, fs, fieldDesc, packed);
      EmitEmit(trace, [MsgEnd(stack[k].msg, depth, packed)], ToCome(descs, root, data, fs[..k], fieldDesc, false));
      assert fs[k] == stack[k] && fs[..k] == stack[..k];
      if k == 0 {
        EndTotal(trace + [MsgEnd(stack[k].msg, depth, packed)], descs, root, data, fs[..0], fieldDesc);
      } else {
        assert Linked(fs, k) && fs[k - 1] == stack[k - 1];
      }
      trace := trace + [MsgEnd(stack[depth - 1].msg, depth, packed)];
      depth := depth - 1;
      packed := false;
    }

    /** One pass of the inner loop: decodes a field or a packed element, and opens a frame for a body. */
    method DecodeOne(root: nat, data: seq<byte>, ghost goal: Parsed) returns (err: Err, nested: bool)
      requires Valid(data) && depth > 0 && TopLeft(data) > 0
      requires Total(root, data) == goal && Defined(goal.status)
      modifies this`depth, this`packed, this`fieldDesc, this`trace, stack
      ensures err.Ok? || err.EndOfBuf?
      ensures err.EndOfBuf? ==> goal.status.Truncated? && trace == goal.events
      ensures err.Ok? ==> Valid(data) && Left(data) < old(Left(data))
      ensures err.Ok? && !nested ==>
                && depth == old(depth) && Total(root, data) == goal
                && TopLeft(data) < old(TopLeft(data))
      ensures err.Ok? && nested ==>
                depth > 0 && TotalFromTop(root, data) == goal
    {
      hide ToCome, TopParse, SumLeft, Linked, FromWire, Interpret, IsPackedRepeated;
      ghost var fs := stack[..depth];
      var frame := stack[depth - 1];
      assert fs[depth - 1] == frame && frame.buf.Valid(|data|);
      ComeStop(descs, root, data, fs, fieldDesc, packed);
      if packed {
        err := DecodeElement(root, data, goal);
        return err, false;
      }
      FieldStops(descs, root, data, frame, depth, fieldDesc);
      var fd, w, out;
      err, fd, w, out := ReadNext(descs, frame.msg, data, frame.buf, fieldDesc);
      if !err.Ok? {
        assert trace + [] == trace;
        return err, false;
      }
      err, nested := Dispatch(root, data, goal, fd, w, out);
    }

    /** A field of the innermost frame has been read up to `out`, and `fd` and `w` are what was found. */
    ghost predicate FieldRead(root: nat, data: seq<byte>, goal: Parsed, fd: Option<Field>, w: Option<WireValue>, out: Buf)
      reads this, stack
    {
      && Valid(data) && depth > 0 && !packed
      && Total(root, data) == goal && Defined(goal.status)
      && (fd.None? ==> fieldDesc.None?)
      && var buf := stack[depth - 1].buf;
         && out == buf.(pos := out.pos) && buf.Valid(|data|) && buf.pos < out.pos <= buf.end
         && (w.Some? && w.value.WString? ==> BodyAt(data, w.value.s, out.pos) && |w.value.s| < out.pos - buf.pos)
         && ReadField(descs, stack[depth - 1].msg, Rest(data, buf), fieldDesc, true)
            == Interpret(fd, w, out.pos - buf.pos)
    }

    /** Calls the handler for a field that has been read, or opens a frame for its body. */
    method Dispatch(root: nat, data: seq<byte>, ghost goal: Parsed, fd: Option<Field>, w: Option<WireValue>, out: Buf)
      returns (err: Err, nested: bool)
      requires FieldRead(root, data, goal, fd, w, out)
      modifies this`depth, this`packed, this`fieldDesc, this`trace, stack
      ensures err.Ok? && Valid(data) && Left(data) < old(Left(data))
      ensures !nested ==> depth == old(depth) && Total(root, data) == goal && TopLeft(data) < old(TopLeft(data))
      ensures nested ==> depth > 0 && TotalFromTop(root, data) == goal
    {
      ghost var frame := stack[depth - 1];
      FieldKnown(descs, root, data, trace, stack[..depth], fieldDesc, fd, w, out.pos);
      hide Total, TotalFromTop, Valid, Left, TopLeft, ToCome, TopParse, FromWire, ReadField, Rest, FieldRead;
      err, nested := Ok, false;
      if fd.None? {
        SkipField(root, data, goal, w, out);
      } else if w.value.WString? && (IsPackedRepeated(fd.value) || fd.value.typ.Message?) {
        OpenBody(root, data, goal, fd.value, w.value.s, out);
        nested := true;
      } else {
        ReportValue(root, data, goal, fd.value, w.value, out);
      }
    }

    /** Passes over a field with no descriptor. */
    method SkipField(ghost root: nat, ghost data: seq<byte>, ghost goal: Parsed, ghost w: Option<WireValue>, out: Buf)
      requires FieldRead(root, data, goal, None, w, out)
      modifies this`fieldDesc, stack
      ensures Valid(data) && depth == old(depth) && Total(root, data) == goal
      ensures Left(data) < old(Left(data)) && TopLeft(data) < old(TopLeft(data))
    {
      hide ToCome, TopParse, ReadField, Linked, SumLeft;
      ghost var fs := stack[..depth];
      var frame := stack[depth - 1];
      assert fs[depth - 1] == frame;
      FieldKnown(descs, root, data, trace, fs, fieldDesc, None, w, out.pos);
      StackMove(fs, |data|, out.pos);
      ComeSkip(descs, root, data, fs, fieldDesc, out.pos);
      fieldDesc := None;
      stack[depth - 1] := frame.(buf := out);
      assert stack[..depth] == MoveTop(fs, out.pos);
      EmitEmit(trace, [], ToCome(descs, root, data, stack[..depth], fieldDesc, false));
      assert trace + [] == trace;
    }

    /** Reports a value. */
    method ReportValue(ghost root: nat, ghost data: seq<byte>, ghost goal: Parsed, f: Field, w: WireValue, out: Buf)
      requires FieldRead(root, data, goal, Some(f), Some(w), out)
      requires !(w.WString? && (IsPackedRepeated(f) || f.typ.Message?))
      modifies this`fieldDesc, this`trace, stack
      ensures Valid(data) && depth == old(depth) && Total(root, data) == goal
      ensures Left(data) < old(Left(data)) && TopLeft(data) < old(TopLeft(data))
    {
      hide ToCome, TopParse, ReadField, Linked, SumLeft, FromWire;
      ghost var fs := stack[..depth];
      var frame := stack[depth - 1];
      assert fs[depth - 1] == frame;
      FieldKnown(descs, root, data, trace, fs, fieldDesc, Some(f), Some(w), out.pos);
      var v := FromWire(f.typ, w);
      StackMove(fs, |data|, out.pos);
      ComeScalar(descs, root, data, fs, fieldDesc, out.pos, f, v);
      fieldDesc := Some(f);
      stack[depth - 1] := frame.(buf := out);
      assert stack[..depth] == MoveTop(fs, out.pos);
      EmitEmit(trace, [FieldEvent(frame.msg, f, Some(v))], ToCome(descs, root, data, stack[..depth], Some(f), false));
      trace := trace + [FieldEvent(frame.msg, f, Some(v))];
    }

    /** Opens a frame for a nested message or a packed field. */
    method OpenBody(root: nat, ghost data: seq<byte>, ghost goal: Parsed, f: Field, body: seq<byte>, out: Buf)
      requires FieldRead(root, data, goal, Some(f), Some(WString(body)), out) && (IsPackedRepeated(f) || f.typ.Message?)
      modifies this`depth, this`packed, this`fieldDesc, this`trace, stack
      ensures Valid(data) && depth > 0 && TotalFromTop(root, data) == goal && Left(data) < old(Left(data))
    {
      hide ToCome, TopParse, ReadField, Linked, SumLeft;
      ghost var fs := stack[..depth];
      var frame := stack[depth - 1];
      assert fs[depth - 1] == frame;
      FieldKnown(descs, root, data, trace, fs, fieldDesc, Some(f), Some(WString(body)), out.pos);
      var whole := IsPackedRepeated(f);
      StackMove(fs, |data|, out.pos);
      ComeBody(descs, root, data, fs, fieldDesc, out.pos, f, body, whole);
      fieldDesc := Some(f);
      stack[depth - 1] := frame.(buf := out);
      assert stack[..depth] == MoveTop(fs, out.pos);
      if !whole {
        trace := trace + [FieldEvent(root, f, None)];
      }
      Push(data, ChildFrame(out.pos, |body|, if whole then frame.msg else f.msg), whole);
    }

    /** Pushes a frame for a body the innermost frame has passed over; a packed field's body turns packed mode on. */
    method Push(ghost data: seq<byte>, child: Frame, enterPacked: bool)
      requires Valid(data) && 0 < depth < MAX_DEPTH && !packed && fieldDesc.Some?
      requires child.buf.Valid(|data|)
      requires var parent := stack[depth - 1].buf;
               parent.base < parent.pos && parent.base <= child.buf.base && child.buf.end <= parent.pos
      modifies this`depth, this`packed, stack
      ensures Valid(data) && depth == old(depth) + 1 && packed == enterPacked
      ensures stack[..depth] == old(stack[..depth]) + [child]
      ensures Left(data) == old(Left(data)) + child.buf.Left()
    {
      hide SumLeft, Linked;
      ghost var fs := stack[..depth];
      assert fs[depth - 1] == stack[depth - 1];
      StackPush(fs, |data|, child);
      depth := depth + 1;
      stack[depth - 1] := child;
      assert stack[..depth] == fs + [child];
      if enterPacked {
        packed := true;
      }
    }

    /** Decodes an element of a packed field. */
    method DecodeElement(root: nat, data: seq<byte>, ghost goal: Parsed) returns (err: Err)
      requires Valid(data) && depth > 0 && TopLeft(data) > 0 && packed
      requires Total(root, data) == goal && Defined(goal.status)
      modifies this`trace, stack
      ensures err.Ok? || err.EndOfBuf?
      ensures err.EndOfBuf? ==> goal.status.Truncated? && trace == goal.events
      ensures err.Ok? ==> Valid(data) && Left(data) < old(Left(data))
      ensures err.Ok? ==> Total(root, data) == goal && TopLeft(data) < old(TopLeft(data))
    {
      hide ToCome, SumLeft, FromWire, ReadWire;
      ghost var fs := stack[..depth];
      var frame, f := stack[depth - 1], fieldDesc.value;
      assert fs[depth - 1] == frame && frame.buf.Valid(|data|);
      ComeElement(descs, root, data, fs, f);
      var w, out;
      err, w, out := DecodeWire(data, frame.buf, WireTypeCode(FieldWireType(f.typ)));
      if !err.Ok? {
        assert trace + [] == trace;
        return;
      }
      var v := FromWire(f.typ, w.value);
      StackMove(fs, |data|, out.pos);
      stack[depth - 1] := frame.(buf := out);
      assert stack[..depth] == MoveTop(fs, out.pos);
      EmitEmit(trace, [FieldEvent(frame.msg, f, Some(v))], ToCome(descs, root, data, stack[..depth], Some(f), true));
      trace := trace + [FieldEvent(frame.msg, f, Some(v))];
    }
  }

  /** The bytes end at `pos`. */
  ghost predicate BodyAt(data: seq<byte>, body: seq<byte>, pos: nat) {
    |body| <= pos <= |data| && |body| < TWO64 && data[pos - |body|..pos] == body
  }

  /** A field that has been read in a run that stays defined is one the parse goes on after. */
  lemma FieldKnown(descs: Descs, root: nat, data: seq<byte>, trace: seq<Event>, fs: seq<Frame>, last: Option<Field>,
                   fd: Option<Field>, w: Option<WireValue>, pos: nat)
    requires StackOk(fs, |data|) && fs != [] && fs[|fs| - 1].buf.Valid(|data|)
    requires Defined(Emit(trace, ToCome(descs, root, data, fs, last, false)).status)
    requires w.Some? && w.value.WString? ==> |w.value.s| < TWO64
    requires var top := fs[|fs| - 1];
             && top.buf.pos < pos <= top.buf.end
             && ReadField(descs, top.msg, Rest(data, top.buf), last, true) == Interpret(fd, w, pos - top.buf.pos)
    ensures var h := Interpret(fd, w, pos - fs[|fs| - 1].buf.pos);
            && FieldAt(descs, data, fs[|fs| - 1], last, pos, h)
            && (fd.Some? ==> w.Some?)
            && (fd.Some? && !(w.value.WString? && IsPackedRepeated(fd.value)) ==>
                  WireTypeOf(w.value) == FieldWireType(fd.value.typ))
  {
    hide ReadField, FromWire, ToCome, TopParse;
    FieldStops(descs, root, data, fs[|fs| - 1], |fs|, last);
    ComeStop(descs, root, data, fs, last, false);
  }

  lemma ValidAt(fs: seq<Frame>, size: nat, i: nat)
    requires StackOk(fs, size) && i < |fs|
    ensures fs[i].buf.Valid(size)
  {
  }

  lemma StartTotal(descs: Descs, m: nat, data: seq<byte>, fs: seq<Frame>)
    requires fs == [Frame(Buf(0, 0, |data|), m)]
    ensures StackOk(fs, |data|)
    ensures Emit([MsgStart(m, 1, false)], ToCome(descs, m, data, fs, None, false)) == Parse(descs, m, data, true)
  {
    assert Rest(data, fs[0].buf) == data;
    assert fs[..0] == [];
    var p := ParseFields(descs, m, m, data, None, 1, true);
    assert ToCome(descs, m, data, [], p.last, false) == Parsed([], Done, p.last);
    assert Ended(m, 1, false, p).events + [] == Ended(m, 1, false, p).events;
  }

  lemma EndTotal(trace: seq<Event>, descs: Descs, m: nat, data: seq<byte>, fs: seq<Frame>, last: Option<Field>)
    requires fs == []
    ensures Emit(trace, ToCome(descs, m, data, fs, last, false)) == Parsed(trace, Done, last)
  {
    assert trace + [] == trace;
  }
}
