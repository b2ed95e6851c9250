/** Whole runs of the encoder: any sequence of calls, and what a complete one has written. */
module EncoderRuns {
  import opened Wire
  import opened Schema
  import opened Scalars
  import opened Format
  import opened Fields
  import opened Encoder

  // ---- sequences of calls ----

  /** Every call is legal in the state the calls before it lead to. */
  ghost predicate LegalRun(descs: Descs, st: State, ops: seq<Op>)
    decreases |ops|
  {
    ops == [] ||
    (&& Legal(st, ops[0])
     && var r := Step(descs, st, ops[0]);
        r.Next? ==> LegalRun(descs, r.st, ops[1..]))
  }

  /** The state after a sequence of calls, or the first error. */
  ghost function Run(descs: Descs, st: State, ops: seq<Op>): (r: Outcome)
    requires LegalRun(descs, st, ops)
    decreases |ops|
  {
    if ops == [] then Next(st)
    else
      var r := Step(descs, st, ops[0]);
      if r.Next? then Run(descs, r.st, ops[1..]) else r
  }

  /** Performs the calls on an encoder until one fails. */
  method Drive(e: Encoder, ops: seq<Op>) returns (err: Err)
    requires e.Valid() && LegalRun(e.descs, e.Abstract(), ops)
    modifies e`depth, e`packed, e.stack, e.data
    ensures err.Ok? ==> e.Valid()
    ensures Run(e.descs, old(e.Abstract()), ops) == if err.Ok? then Next(e.Abstract()) else Fail(err)
  {
    hide Step, Legal;
    err := Ok;
    assert ops[0..] == ops;
    for i := 0 to |ops|
      invariant err.Ok? && e.Valid() && LegalRun(e.descs, e.Abstract(), ops[i..])
      invariant Run(e.descs, e.Abstract(), ops[i..]) == Run(e.descs, old(e.Abstract()), ops)
    {
      assert ops[i..][0] == ops[i] && ops[i..][1..] == ops[i + 1..];
      ghost var st := e.Abstract();
      err := Call(e, ops[i]);
      if !err.Ok? {
        assert Run(e.descs, st, ops[i..]) == Fail(err);
        return;
      }
      assert Run(e.descs, st, ops[i..]) == Run(e.descs, e.Abstract(), ops[i + 1..]);
    }
    assert ops[|ops|..] == [];
  }

  /** Performs one call. */
  method Call(e: Encoder, op: Op) returns (err: Err)
    requires e.Valid() && Legal(e.Abstract(), op)
    modifies e`depth, e`packed, e.stack, e.data
    ensures err.Ok? ==> e.Valid()
    ensures Step(e.descs, old(e.Abstract()), op) == if err.Ok? then Next(e.Abstract()) else Fail(err)
    ensures op.CloseNested? || op.ClosePacked? ==> !err.EndOfBuf?
  {
    hide Step;
    match op
    case Add(f, v) => err := e.AddValue(f, v);
    case OpenNested(f) => err := e.NestedStart(f);
    case CloseNested => err := e.NestedEnd();
    case OpenPacked(f) => err := e.PackedStart(f);
    case ClosePacked => err := e.PackedEnd();
  }

  /** Running calls one part after the other. */
  lemma {:induction false} RunConcat(descs: Descs, st: State, a: seq<Op>, b: seq<Op>)
    ensures LegalRun(descs, st, a + b)
            <==> LegalRun(descs, st, a) && (Run(descs, st, a).Next? ==> LegalRun(descs, Run(descs, st, a).st, b))
    ensures LegalRun(descs, st, a + b) ==>
              Run(descs, st, a + b) == var r := Run(descs, st, a); if r.Next? then Run(descs, r.st, b) else r
    decreases |a|
  {
    hide Step, Legal;
    if a == [] {
      assert a + b == b;
    } else {
      assert (a + b)[0] == a[0] && (a + b)[1..] == a[1..] + b;
      if Legal(st, a[0]) {
        var r := Step(descs, st, a[0]);
        if r.Next? {
          RunConcat(descs, r.st, a[1..], b);
        }
      }
    }
  }

  // ---- the calls that encode a tree ----

  ghost function Ops(items: seq<Item>): seq<Op>
    decreases items, 1
  {
    if items == [] then [] else OpsItem(items[0]) + Ops(items[1..])
  }

  ghost function OpsItem(it: Item): seq<Op>
    decreases it, 0
  {
    match it
    case Single(f, v) => [Add(f, v)]
    case Packed(f, vs) => [OpenPacked(f)] + (Adds(f, vs) + [ClosePacked])
    case Nested(f, body) => [OpenNested(f)] + (Ops(body) + [CloseNested])
  }

  function Adds(f: Field, vs: seq<Value>): seq<Op> {
    if vs == [] then [] else [Add(f, vs[0])] + Adds(f, vs[1..])
  }

  /** A message is open, in a buffer the encoder's reserve is made for. */
  ghost predicate MessageOpen(st: State) {
    st.levels != [] && !st.InPacked() && st.left < TWO35
  }

  /** The state in which a level has just been opened. */
  function Opened(st: State, f: Field, msg: Option<nat>): (r: State)
    requires RESERVE <= st.left
    ensures r.levels != [] && r.Top() == Level(Some(f), msg, []) && r.Outer() == st.levels
  {
    State(st.levels + [Level(Some(f), msg, [])], st.left - RESERVE)
  }

  /** The outcome of encoding something of `need` and then `b` into a state. */
  function After(st: State, need: nat, b: seq<byte>): Outcome
    requires st.levels != []
  {
    if need <= st.left && |b| <= st.left then Next(State(Append(st.levels, b), st.left - |b|)) else Fail(EndOfBuf)
  }

  /** Encoding a tree appends its encoding when its need fits the room left, and runs out of room otherwise. */
  lemma {:induction false} RunTree(descs: Descs, st: State, items: seq<Item>)
    requires MessageOpen(st) && Shaped(items) && Declared(descs, st.Top().msg.value, items)
    ensures |st.levels| + Height(items) <= MAX_DEPTH ==> LegalRun(descs, st, Ops(items))
    ensures LegalRun(descs, st, Ops(items)) ==>
              Run(descs, st, Ops(items)) == After(st, Need(items), Enc(items))
    decreases items, 1
  {
    if items == [] {
      AppendNothing(st.levels);
    } else {
      var it, rest := items[0], items[1..];
      RunItem(descs, st, it);
      RunConcat(descs, st, OpsItem(it), Ops(rest));
      var mid := After(st, NeedItem(it), EncItem(it));
      if mid.Next? {
        assert mid.st.Top().msg == st.Top().msg;
        RunTree(descs, mid.st, rest);
        AppendAppend(st.levels, EncItem(it), Enc(rest));
      }
    }
  }

  lemma AppendNothing(ls: seq<Level>)
    requires ls != []
    ensures Append(ls, []) == ls
  {
    var top := ls[|ls| - 1];
    assert top.bytes + [] == top.bytes;
  }

  lemma AppendAppend(ls: seq<Level>, a: seq<byte>, b: seq<byte>)
    requires ls != []
    ensures Append(Append(ls, a), b) == Append(ls, a + b)
  {
    var top := ls[|ls| - 1];
    assert top.bytes + a + b == top.bytes + (a + b);
  }

  lemma {:induction false} RunItem(descs: Descs, st: State, it: Item)
    requires MessageOpen(st) && ShapedItem(it) && DeclaredItem(descs, st.Top().msg.value, it)
    ensures |st.levels| + HeightItem(it) <= MAX_DEPTH ==> LegalRun(descs, st, OpsItem(it))
    ensures LegalRun(descs, st, OpsItem(it)) ==>
              Run(descs, st, OpsItem(it)) == After(st, NeedItem(it), EncItem(it))
    decreases it, 0
  {
    hide Step, ToWire, EncWire;
    match it
    case Single(f, v) =>
      RunOne(descs, st, Add(f, v));
      StepAdd(descs, st, f, v);
    case Packed(f, vs) =>
      var b := EncValues(f.typ, vs);
      if RESERVE <= st.left {
        RunAdds(descs, Opened(st, f, None), f, vs);
      }
      RunBody(descs, st, OpenPacked(f), Adds(f, vs), ClosePacked, f, None, |b|, b);
    case Nested(f, body) =>
      RunNested(descs, st, f, body);
  }

  lemma {:induction false} RunNested(descs: Descs, st: State, f: Field, body: seq<Item>)
    requires MessageOpen(st) && ShapedItem(Nested(f, body)) && DeclaredItem(descs, st.Top().msg.value, Nested(f, body))
    ensures |st.levels| + 1 + Height(body) <= MAX_DEPTH ==> LegalRun(descs, st, OpsItem(Nested(f, body)))
    ensures LegalRun(descs, st, OpsItem(Nested(f, body))) ==>
              Run(descs, st, OpsItem(Nested(f, body)))
              == After(st, RESERVE + Need(body), Record(f, WString(Enc(body))))
    decreases body, 2
  {
    hide Step, ToWire, EncWire;
    if RESERVE <= st.left {
      RunTree(descs, Opened(st, f, Some(f.msg)), body);
    }
    EncWithinNeed(body);
    RunBody(descs, st, OpenNested(f), Ops(body), CloseNested, f, Some(f.msg), Need(body), Enc(body));
  }

  /** Adding a value to an open message or to its packed field. */
  lemma StepAdd(descs: Descs, st: State, f: Field, v: Value)
    requires Legal(st, Add(f, v))
    requires if st.InPacked() then st.Top().field == Some(f) else f in FieldsOf(descs, st.Top().msg.value)
    ensures var b := FieldBytes(f, st.InPacked(), ToWire(f.typ, v));
            Step(descs, st, Add(f, v)) == After(st, |b|, b)
  {
  }

  /** Opening a level. */
  lemma StepOpen(descs: Descs, st: State, open: Op, f: Field, msg: Option<nat>)
    requires MessageOpen(st)
    requires (open == OpenNested(f) && msg == Some(f.msg) && f.typ.Message? && !IsPackedRepeated(f))
             || (open == OpenPacked(f) && msg == None && PackedField(f))
    ensures Legal(st, open) <==> |st.levels| < MAX_DEPTH
    ensures Legal(st, open) ==>
              Step(descs, st, open) == if RESERVE <= st.left then Next(Opened(st, f, msg)) else Fail(EndOfBuf)
  {
  }

  lemma RunOne(descs: Descs, st: State, op: Op)
    ensures LegalRun(descs, st, [op]) <==> Legal(st, op)
    ensures Legal(st, op) ==> Run(descs, st, [op]) == Step(descs, st, op)
  {
    hide Step, Legal;
    assert [op][1..] == [];
    if Legal(st, op) && Step(descs, st, op).Next? {
      assert LegalRun(descs, Step(descs, st, op).st, []);
      assert Run(descs, Step(descs, st, op).st, []) == Step(descs, st, op);
    }
  }

  /** Opening a level, running its body and closing it again writes the body under its key and length. */
  lemma RunBody(descs: Descs, st: State, open: Op, body: seq<Op>, close: Op, f: Field, msg: Option<nat>,
                need: nat, b: seq<byte>)
    requires MessageOpen(st) && f in FieldsOf(descs, st.Top().msg.value)
    requires (open == OpenNested(f) && close == CloseNested && msg == Some(f.msg)
              && f.typ.Message? && !IsPackedRepeated(f))
             || (open == OpenPacked(f) && close == ClosePacked && msg == None && PackedField(f))
    requires |b| <= need
    requires RESERVE <= st.left && LegalRun(descs, Opened(st, f, msg), body) ==>
               Run(descs, Opened(st, f, msg), body) == After(Opened(st, f, msg), need, b)
    ensures LegalRun(descs, st, [open] + (body + [close]))
            <==> |st.levels| < MAX_DEPTH && (RESERVE <= st.left ==> LegalRun(descs, Opened(st, f, msg), body))
    ensures LegalRun(descs, st, [open] + (body + [close])) ==>
              Run(descs, st, [open] + (body + [close])) == After(st, RESERVE + need, Record(f, WString(b)))
  {
    hide Step, Legal, EncWire, Append;
    RunConcat(descs, st, [open], body + [close]);
    RunOne(descs, st, open);
    StepOpen(descs, st, open, f, msg);
    if Legal(st, open) && RESERVE <= st.left {
      var inner := Opened(st, f, msg);
      RunConcat(descs, inner, body, [close]);
      if LegalRun(descs, inner, body) && Run(descs, inner, body).Next? {
        RunOne(descs, Run(descs, inner, body).st, close);
        CloseFull(descs, st, close, f, msg, b);
      }
    }
  }

  /** Closing a level that holds `b`. */
  lemma CloseFull(descs: Descs, st: State, close: Op, f: Field, msg: Option<nat>, b: seq<byte>)
    requires MessageOpen(st) && RESERVE + |b| <= st.left
    requires close == if msg.Some? then CloseNested else ClosePacked
    ensures var inner := Opened(st, f, msg);
            var full := State(Append(inner.levels, b), inner.left - |b|);
            && Legal(full, close)
            && Step(descs, full, close) == if f in FieldsOf(descs, st.Top().msg.value)
                                           then After(st, 0, Record(f, WString(b))) else Fail(UnknownField)
  {
    hide EncWire;
    var inner := Opened(st, f, msg);
    var full := State(Append(inner.levels, b), inner.left - |b|);
    assert [] + b == b;
    assert full.Top() == Level(Some(f), msg, b);
    assert full.Outer() == st.levels;
  }

  lemma {:induction false} RunAdds(descs: Descs, st: State, f: Field, vs: seq<Value>)
    requires st.levels != [] && st.InPacked() && st.Top().field == Some(f)
    requires PackedField(f) && FitAll(f.typ, vs)
    ensures LegalRun(descs, st, Adds(f, vs))
    ensures Run(descs, st, Adds(f, vs)) == After(st, |EncValues(f.typ, vs)|, EncValues(f.typ, vs))
    decreases |vs|
  {
    if vs == [] {
      AppendNothing(st.levels);
    } else {
      hide Step, ToWire, EncWire;
      var b := EncWire(ToWire(f.typ, vs[0]));
      RunOne(descs, st, Add(f, vs[0]));
      StepAdd(descs, st, f, vs[0]);
      RunConcat(descs, st, [Add(f, vs[0])], Adds(f, vs[1..]));
      var r := Step(descs, st, Add(f, vs[0]));
      if r.Next? {
        RunAdds(descs, r.st, f, vs[1..]);
        AppendAppend(st.levels, b, EncValues(f.typ, vs[1..]));
      }
    }
  }

  // ---- every complete run encodes a tree ----

  /** The fresh encoder: one open message, nothing written. */
  function Started(m: nat, len: nat): (st: State) {
    State([Level(None, Some(m), [])], len)
  }

  /** The level opened by a run that ends further out is closed right after its body, and the run goes on
      from the level around it. */
  lemma ClosedAfterBody(descs: Descs, st: State, f: Field, msg: Option<nat>, body: seq<Op>, tail: seq<Op>,
                        close: Op, need: nat, b: seq<byte>) returns (next: State)
    requires MessageOpen(st) && RESERVE <= st.left
    requires close == if msg.Some? then CloseNested else ClosePacked
    requires LegalRun(descs, Opened(st, f, msg), body + tail)
    requires var r := Run(descs, Opened(st, f, msg), body + tail); r.Next? && |r.st.levels| <= |st.levels|
    requires LegalRun(descs, Opened(st, f, msg), body) ==>
               Run(descs, Opened(st, f, msg), body) == After(Opened(st, f, msg), need, b)
    requires tail == [] || tail[0] == close
    ensures tail != [] && f in FieldsOf(descs, st.Top().msg.value)
    ensures MessageOpen(next) && |next.levels| == |st.levels| && next.Top().msg == st.Top().msg
    ensures LegalRun(descs, next, tail[1..])
    ensures Run(descs, next, tail[1..]) == Run(descs, Opened(st, f, msg), body + tail)
  {
    hide Step, EncWire;
    var inner := Opened(st, f, msg);
    RunConcat(descs, inner, body, tail);
    var full := State(Append(inner.levels, b), inner.left - |b|);
    assert Run(descs, inner, body) == Next(full);
    next := FullIsClosed(descs, st, f, msg, tail, close, b);
  }

  lemma FullIsClosed(descs: Descs, st: State, f: Field, msg: Option<nat>, tail: seq<Op>, close: Op, b: seq<byte>)
    returns (next: State)
    requires MessageOpen(st) && RESERVE + |b| <= st.left
    requires close == if msg.Some? then CloseNested else ClosePacked
    requires tail == [] || tail[0] == close
    requires var full := State(Append(Opened(st, f, msg).levels, b), st.left - RESERVE - |b|);
             && LegalRun(descs, full, tail)
             && var r := Run(descs, full, tail); r.Next? && |r.st.levels| <= |st.levels|
    ensures var full := State(Append(Opened(st, f, msg).levels, b), st.left - RESERVE - |b|);
            && tail != [] && f in FieldsOf(descs, st.Top().msg.value)
            && MessageOpen(next) && |next.levels| == |st.levels| && next.Top().msg == st.Top().msg
            && LegalRun(descs, next, tail[1..])
            && Run(descs, next, tail[1..]) == Run(descs, full, tail)
  {
    hide Record, Legal, Step;
    var full := State(Append(Opened(st, f, msg).levels, b), st.left - RESERVE - |b|);
    assert tail != [] by { assert |full.levels| > |st.levels|; }
    CloseFull(descs, st, close, f, msg, b);
    next := Step(descs, full, close).st;
  }

  /** Splits the calls made in packed mode at the point where the packed field is closed. */
  lemma {:induction false} SplitAdds(descs: Descs, st: State, f: Field, ops: seq<Op>)
    returns (vs: seq<Value>, rest: seq<Op>)
    requires st.levels != [] && st.InPacked() && st.Top().field == Some(f) && PackedField(f)
    requires LegalRun(descs, st, ops) && Run(descs, st, ops).Next?
    ensures FitAll(f.typ, vs) && ops == Adds(f, vs) + rest
    ensures rest == [] || rest[0] == ClosePacked
    decreases |ops|
  {
    if ops == [] || ops[0].ClosePacked? {
      return [], ops;
    }
    assert ops[0].Add? && ops[0].f == f;
    var v := ops[0].v;
    var next := Step(descs, st, ops[0]).st;
    hide Step, Legal, Fits;
    assert Fits(f.typ, v);
    var vs', rest' := SplitAdds(descs, next, f, ops[1..]);
    vs, rest := [v] + vs', rest';
    FitAllConcat(f.typ, [v], vs');
    assert vs[1..] == vs' && ops == [ops[0]] + ops[1..];
  }

  /** Splits a run that does not fail at the point where it closes the level it started in: what comes before
      are the calls of a tree. */
  lemma {:induction false} SplitRun(descs: Descs, st: State, ops: seq<Op>) returns (items: seq<Item>, rest: seq<Op>)
    requires MessageOpen(st) && LegalRun(descs, st, ops)
    requires var r := Run(descs, st, ops); r.Next? && |r.st.levels| <= |st.levels|
    ensures Shaped(items) && Declared(descs, st.Top().msg.value, items)
    ensures ops == Ops(items) + rest
    ensures rest == [] || rest[0] == CloseNested
    decreases |ops|, 1
  {
    if ops == [] || ops[0].CloseNested? {
      return [], ops;
    }
    assert !ops[0].ClosePacked?;
    hide Step, Legal, LegalRun, Run;
    match ops[0]
    case Add(f, v) => items, rest := SplitAdd(descs, st, f, v, ops);
    case OpenNested(f) => items, rest := SplitNested(descs, st, f, ops);
    case OpenPacked(f) => items, rest := SplitPacked(descs, st, f, ops);
  }

  lemma {:induction false} SplitAdd(descs: Descs, st: State, f: Field, v: Value, ops: seq<Op>)
    returns (items: seq<Item>, rest: seq<Op>)
    requires MessageOpen(st) && LegalRun(descs, st, ops) && ops != [] && ops[0] == Add(f, v)
    requires var r := Run(descs, st, ops); r.Next? && |r.st.levels| <= |st.levels|
    ensures Shaped(items) && Declared(descs, st.Top().msg.value, items)
    ensures ops == Ops(items) + rest
    ensures rest == [] || rest[0] == CloseNested
    decreases |ops|, 0
  {
    hide Step, Legal, ToWire, EncWire, Fits, ShapedItem, DeclaredItem;
    var next := AddIsItem(descs, st, f, v);
    var items', rest' := SplitRun(descs, next, ops[1..]);
    Prepend(descs, st.Top().msg.value, Single(f, v), items', ops, ops[1..], rest');
    items, rest := [Single(f, v)] + items', rest';
  }

  lemma {:induction false} SplitNested(descs: Descs, st: State, f: Field, ops: seq<Op>)
    returns (items: seq<Item>, rest: seq<Op>)
    requires MessageOpen(st) && LegalRun(descs, st, ops) && ops != [] && ops[0] == OpenNested(f)
    requires var r := Run(descs, st, ops); r.Next? && |r.st.levels| <= |st.levels|
    ensures Shaped(items) && Declared(descs, st.Top().msg.value, items)
    ensures ops == Ops(items) + rest
    ensures rest == [] || rest[0] == CloseNested
    decreases |ops|, 0
  {
    hide Step, Legal, ToWire, EncWire, Fits, Close;
    var inner := OpenIsOpened(descs, st, ops[0], f, Some(f.msg));
    var body, tail := SplitRun(descs, inner, ops[1..]);
    RunTree(descs, inner, body);
    var next := ClosedAfterBody(descs, st, f, Some(f.msg), Ops(body), tail, CloseNested, Need(body), Enc(body));
    var items', rest' := SplitRun(descs, next, tail[1..]);
    assert ops == OpsItem(Nested(f, body)) + tail[1..];
    Prepend(descs, st.Top().msg.value, Nested(f, body), items', ops, tail[1..], rest');
    items, rest := [Nested(f, body)] + items', rest';
  }

  lemma {:induction false} SplitPacked(descs: Descs, st: State, f: Field, ops: seq<Op>)
    returns (items: seq<Item>, rest: seq<Op>)
    requires MessageOpen(st) && LegalRun(descs, st, ops) && ops != [] && ops[0] == OpenPacked(f)
    requires var r := Run(descs, st, ops); r.Next? && |r.st.levels| <= |st.levels|
    ensures Shaped(items) && Declared(descs, st.Top().msg.value, items)
    ensures ops == Ops(items) + rest
    ensures rest == [] || rest[0] == CloseNested
    decreases |ops|, 0
  {
    hide Step, Legal, ToWire, EncWire, Fits, Close;
    var inner := OpenIsOpened(descs, st, ops[0], f, None);
    var vs, tail := SplitAdds(descs, inner, f, ops[1..]);
    RunAdds(descs, inner, f, vs);
    var b := EncValues(f.typ, vs);
    var next := ClosedAfterBody(descs, st, f, None, Adds(f, vs), tail, ClosePacked, |b|, b);
    var items', rest' := SplitRun(descs, next, tail[1..]);
    assert ops == OpsItem(Packed(f, vs)) + tail[1..];
    Prepend(descs, st.Top().msg.value, Packed(f, vs), items', ops, tail[1..], rest');
    items, rest := [Packed(f, vs)] + items', rest';
  }

  lemma AddIsItem(descs: Descs, st: State, f: Field, v: Value) returns (next: State)
    requires MessageOpen(st) && Legal(st, Add(f, v)) && Step(descs, st, Add(f, v)).Next?
    ensures Step(descs, st, Add(f, v)) == Next(next)
    ensures ShapedItem(Single(f, v)) && DeclaredItem(descs, st.Top().msg.value, Single(f, v))
    ensures MessageOpen(next) && |next.levels| == |st.levels| && next.Top().msg == st.Top().msg
  {
    next := Step(descs, st, Add(f, v)).st;
  }

  lemma OpenIsOpened(descs: Descs, st: State, open: Op, f: Field, msg: Option<nat>) returns (inner: State)
    requires MessageOpen(st) && Legal(st, open) && Step(descs, st, open).Next?
    requires open == if msg.Some? then OpenNested(f) else OpenPacked(f)
    requires msg.Some? ==> msg.value == f.msg
    ensures RESERVE <= st.left && inner == Opened(st, f, msg) && Step(descs, st, open) == Next(inner)
    ensures if msg.Some? then f.typ.Message? && !IsPackedRepeated(f) else PackedField(f)
  {
    inner := Step(descs, st, open).st;
  }

  lemma Prepend(descs: Descs, m: nat, it: Item, items: seq<Item>, ops: seq<Op>, tail: seq<Op>, rest: seq<Op>)
    requires ShapedItem(it) && DeclaredItem(descs, m, it) && Shaped(items) && Declared(descs, m, items)
    requires ops == OpsItem(it) + tail && tail == Ops(items) + rest
    ensures Shaped([it] + items) && Declared(descs, m, [it] + items)
    ensures ops == Ops([it] + items) + rest
  {
    hide ShapedItem, DeclaredItem, OpsItem;
    var all := [it] + items;
    assert all[0] == it && all[1..] == items;
    forall i | 0 <= i < |all| ensures ShapedItem(all[i]) && DeclaredItem(descs, m, all[i]) {
      if i > 0 { assert all[i] == items[i - 1]; }
    }
  }

  lemma RootStaysOpen(descs: Descs, st: State, op: Op)
    requires |st.levels| == 1 && op.CloseNested?
    ensures !Legal(st, op)
  {
  }

  /** From a fresh encoder, every legal run that does not fail and ends with only the root message open consists
      of the calls of a well-typed tree, and has written exactly that tree's encoding. */
  lemma CompleteRunEncodesTree(descs: Descs, m: nat, len: nat, ops: seq<Op>) returns (items: seq<Item>)
    requires len < TWO35 && LegalRun(descs, Started(m, len), ops)
    requires var r := Run(descs, Started(m, len), ops); r.Next? && |r.st.levels| == 1
    ensures Shaped(items) && Declared(descs, m, items) && ops == Ops(items)
    ensures Need(items) <= len
    ensures var st := Run(descs, Started(m, len), ops).st;
            st.levels == [Level(None, Some(m), Enc(items))] && st.left + |Enc(items)| == len
  {
    hide Step, Legal;
    var st, rest := Started(m, len), [];
    items, rest := SplitRun(descs, st, ops);
    RunConcat(descs, st, Ops(items), rest);
    RunTree(descs, st, items);
    assert [] + Enc(items) == Enc(items);
    if rest != [] {
      RootStaysOpen(descs, Run(descs, st, Ops(items)).st, rest[0]);
      assert false;
    }
  }

  /** Encoding a tree from a fresh encoder succeeds exactly when its need fits the buffer. */
  lemma EncodeTree(descs: Descs, m: nat, len: nat, items: seq<Item>)
    requires len < TWO35 && Shaped(items) && Declared(descs, m, items) && Height(items) < MAX_DEPTH
    ensures LegalRun(descs, Started(m, len), Ops(items))
    ensures var r := Run(descs, Started(m, len), Ops(items));
            if Need(items) <= len then r.Next? && r.st.levels == [Level(None, Some(m), Enc(items))]
            else r == Fail(EndOfBuf)
  {
    hide LegalRun, Run, Ops, Enc, Need, Height;
    RunTree(descs, Started(m, len), items);
    if Need(items) <= len {
      EncWithinNeed(items);
      assert [] + Enc(items) == Enc(items);
    }
  }

  /** The encoder's client: encodes a whole message tree into a buffer and returns its size. */
  method EncodeMessage(e: Encoder, m: nat, data: array<byte>, len: nat, ghost items: seq<Item>, ops: seq<Op>)
    returns (err: Err, size: nat)
    requires e.stack.Length == MAX_DEPTH && len <= data.Length && len < TWO35
    requires Shaped(items) && Declared(e.descs, m, items) && Height(items) < MAX_DEPTH && ops == Ops(items)
    modifies e, e.stack, data
    ensures err == if Need(items) <= len then Ok else EndOfBuf
    ensures err.Ok? ==> size <= data.Length && data[..size] == Enc(items)
  {
    hide Step, Legal, LegalRun, Run, Shaped, Declared, Height, Need, Enc, Ops;
    size := 0;
    e.Start(m, data, len);
    EncodeTree(e.descs, m, len, items);
    err := Drive(e, ops);
    if err.Ok? {
      size := e.Finish();
    }
  }
}
