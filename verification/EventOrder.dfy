/** The order in which the decoder calls its handlers. */
module EventOrder {
  import opened Wire
  import opened Schema
  import opened Scalars
  import opened Parser

  /** A message or packed field whose start has been reported and whose end has not. */
  datatype Open = Open(msg: nat, packed: bool)

  /** The open frames, outermost first, and the message whose frame comes next, if one has been announced: by
      its field's event or, for the outermost, by the call of the decoder. */
  datatype Frames = Frames(open: seq<Open>, announced: Option<nat>)

  /** Follows the open frames through a sequence of events. It fails when a start or end does not report the
      stack's depth, when a message is started that has not been announced or something comes between the two,
      when an end is not that of the innermost frame, when a frame is started inside a packed one or beyond
      MAX_DEPTH, or when a value does not fit its field or is reported for another message than the innermost. */
  ghost function Follow(es: seq<Event>, st: Frames): (r: Option<Frames>)
    decreases |es|
  {
    if es == [] then Some(st)
    else
      var next := FollowOne(es[0], st);
      if next.Some? then Follow(es[1..], next.value) else None
  }

  ghost function FollowOne(e: Event, st: Frames): Option<Frames> {
    var open := st.open;
    match e
    case MsgStart(m, depth, packed) =>
      if && depth == |open| + 1 <= MAX_DEPTH && (if open == [] then !packed else !open[|open| - 1].packed)
         && st.announced == (if packed then None else Some(m))
      then Some(Frames(open + [Open(m, packed)], None)) else None
    case MsgEnd(m, depth, packed) =>
      if open != [] && depth == |open| && open[|open| - 1] == Open(m, packed) && st.announced.None?
      then Some(Frames(open[..|open| - 1], None)) else None
    case FieldEvent(m, f, v) =>
      if open == [] || st.announced.Some? then None
      else if v.Some? then
        if open[|open| - 1].msg == m && !f.typ.Message? && Fits(f.typ, v.value) then Some(st) else None
      else if open[|open| - 1].packed || open[0].msg != m || !f.typ.Message? then None
      else Some(Frames(open, Some(f.msg)))
  }

  lemma {:induction false} FollowConcat(a: seq<Event>, b: seq<Event>, st: Frames)
    ensures Follow(a + b, st)
            == var r := Follow(a, st); if r.Some? then Follow(b, r.value) else None
    decreases |a|
  {
    hide FollowOne;
    if a == [] {
      assert a + b == b;
    } else {
      assert (a + b)[0] == a[0] && (a + b)[1..] == a[1..] + b;
      var next := FollowOne(a[0], st);
      if next.Some? {
        FollowConcat(a[1..], b, next.value);
      }
    }
  }

  lemma FollowEvent(e: Event, st: Frames)
    ensures Follow([e], st) == FollowOne(e, st)
  {
    hide FollowOne;
    assert [e][1..] == [];
    var next := FollowOne(e, st);
    if next.Some? {
      assert Follow([], next.value) == Some(next.value);
    }
  }

  /** The events of a parse can be followed, and a complete parse leaves the open frames as it found them. */
  ghost predicate Orderly(p: Parsed, open: seq<Open>) {
    && Follow(p.events, Frames(open, None)).Some?
    && (p.status.Done? ==> Follow(p.events, Frames(open, None)).value == Frames(open, None))
  }

  lemma OrderlyThen(p: Parsed, q: Parsed, open: seq<Open>)
    requires Orderly(p, open) && (p.status.Done? ==> Orderly(q, open))
    ensures Orderly(Then(p, q), open)
  {
    FollowConcat(p.events, q.events, Frames(open, None));
  }

  /** A value in front. */
  lemma OrderlyEmit(e: Event, p: Parsed, open: seq<Open>)
    requires FollowOne(e, Frames(open, None)) == Some(Frames(open, None)) && Orderly(p, open)
    ensures Orderly(Emit([e], p), open)
  {
    hide FollowOne;
    FollowEvent(e, Frames(open, None));
    FollowConcat([e], p.events, Frames(open, None));
  }

  /** A complete or broken off frame, from the state `st` its start is reported in. */
  lemma FramedFollows(m: nat, packed: bool, p: Parsed, st: Frames)
    requires |st.open| < MAX_DEPTH && (if st.open == [] then !packed else !st.open[|st.open| - 1].packed)
    requires st.announced == if packed then None else Some(m)
    requires Orderly(p, st.open + [Open(m, packed)])
    ensures var r := Follow(Framed(m, |st.open| + 1, packed, p).events, st);
            r.Some? && (p.status.Done? ==> r.value == Frames(st.open, None))
  {
    var open := st.open;
    var inner := Frames(open + [Open(m, packed)], None);
    var start, end := MsgStart(m, |open| + 1, packed), MsgEnd(m, |open| + 1, packed);
    FollowEvent(start, st);
    FollowEvent(end, inner);
    assert inner.open[..|open|] == open;
    assert FollowOne(start, st) == Some(inner) && FollowOne(end, inner) == Some(Frames(open, None));
    FollowConcat(p.events, [end], inner);
    FollowConcat([start], Ended(m, |open| + 1, packed, p).events, st);
  }

  /** A packed field. */
  lemma OrderlyPacked(m: nat, p: Parsed, open: seq<Open>)
    requires 0 < |open| < MAX_DEPTH && !open[|open| - 1].packed && Orderly(p, open + [Open(m, true)])
    ensures Orderly(Framed(m, |open| + 1, true, p), open)
  {
    FramedFollows(m, true, p, Frames(open, None));
  }

  /** A nested message. */
  lemma OrderlyNested(root: nat, f: Field, p: Parsed, open: seq<Open>)
    requires 0 < |open| < MAX_DEPTH && !open[|open| - 1].packed && open[0].msg == root && f.typ.Message?
    requires Orderly(p, open + [Open(f.msg, false)])
    ensures Orderly(Emit([FieldEvent(root, f, None)], Framed(f.msg, |open| + 1, false, p)), open)
  {
    var e, st := FieldEvent(root, f, None), Frames(open, Some(f.msg));
    FramedFollows(f.msg, false, p, st);
    FollowEvent(e, Frames(open, None));
    assert FollowOne(e, Frames(open, None)) == Some(st);
    FollowConcat([e], Framed(f.msg, |open| + 1, false, p).events, Frames(open, None));
  }

  lemma {:induction false} PackedOrderly(m: nat, f: Field, s: seq<byte>, open: seq<Open>)
    requires open != [] && open[|open| - 1] == Open(m, true)
    ensures Orderly(ParsePacked(m, f, s), open)
    decreases |s|
  {
    hide ReadWire, Fits, FromWire;
    if s == [] {
    } else if !FieldWireType(f.typ).WtString? {
      match ReadWire(WireTypeCode(FieldWireType(f.typ)), s)
      case Read(w, k) =>
        PackedOrderly(m, f, s[k..], open);
        OrderlyEmit(FieldEvent(m, f, Some(FromWire(f.typ, w))), ParsePacked(m, f, s[k..]), open);
      case _ =>
    }
  }

  lemma {:induction false} FieldsOrderly(descs: Descs, root: nat, m: nat, s: seq<byte>, last: Option<Field>,
                                         keep: bool, open: seq<Open>)
    requires open != [] && open[0].msg == root && open[|open| - 1] == Open(m, false)
    ensures Orderly(ParseFields(descs, root, m, s, last, |open|, keep), open)
    decreases |s|, 1
  {
    hide ReadField, Orderly;
    if s == [] {
      OrderlyNothing(Done, last, open);
    } else {
      match ReadField(descs, m, s, last, keep)
      case Stopped(status) => OrderlyNothing(status, last, open);
      case Skipped(k) => FieldsOrderly(descs, root, m, s[k..], last, keep, open);
      case Scalar(f, v, k) =>
        ScalarFits(descs, m, s, last, keep);
        FieldsOrderly(descs, root, m, s[k..], Some(f), keep, open);
        OrderlyEmit(FieldEvent(m, f, Some(v)), ParseFields(descs, root, m, s[k..], Some(f), |open|, keep), open);
      case PackedBody(f, body, k) =>
        if |open| >= MAX_DEPTH {
          OrderlyNothing(Unmodelled, Some(f), open);
        } else {
          PackedOrderly(m, f, body, open + [Open(m, true)]);
          OrderlyPacked(m, ParsePacked(m, f, body), open);
          FieldsOrderly(descs, root, m, s[k..], Some(f), keep, open);
          OrderlyThen(Framed(m, |open| + 1, true, ParsePacked(m, f, body)),
                      ParseFields(descs, root, m, s[k..], Some(f), |open|, keep), open);
        }
      case Body(f, body, k) =>
        BodyOrderly(descs, root, m, s, last, keep, open, f, body, k);
    }
  }

  /** A nested message for whose frame there is no room. */
  lemma OrderlyAnnounced(root: nat, f: Field, open: seq<Open>)
    requires open != [] && open[0].msg == root && !open[|open| - 1].packed && f.typ.Message?
    ensures Orderly(Parsed([FieldEvent(root, f, None)], Unmodelled, Some(f)), open)
  {
    FollowEvent(FieldEvent(root, f, None), Frames(open, None));
  }

  lemma OrderlyNothing(status: Status, last: Option<Field>, open: seq<Open>)
    ensures Orderly(Parsed([], status, last), open)
  {
  }

  lemma {:induction false} BodyOrderly(descs: Descs, root: nat, m: nat, s: seq<byte>, last: Option<Field>, keep: bool,
                                       open: seq<Open>, f: Field, body: seq<byte>, k: nat)
    requires open != [] && open[0].msg == root && open[|open| - 1] == Open(m, false)
    requires s != [] && ReadField(descs, m, s, last, keep) == Body(f, body, k)
    ensures Orderly(ParseFields(descs, root, m, s, last, |open|, keep), open)
    decreases |s|, 0
  {
    hide ReadField, Orderly;
    ScalarFits(descs, m, s, last, keep);
    var e := FieldEvent(root, f, None);
    if |open| >= MAX_DEPTH {
      OrderlyAnnounced(root, f, open);
    } else {
      var inner := ParseFields(descs, root, f.msg, body, Some(f), |open| + 1, keep);
      var after := ParseFields(descs, root, m, s[k..], inner.last, |open|, keep);
      FieldsOrderly(descs, root, f.msg, body, Some(f), keep, open + [Open(f.msg, false)]);
      FieldsOrderly(descs, root, m, s[k..], inner.last, keep, open);
      var framed := Framed(f.msg, |open| + 1, false, inner);
      OrderlyNested(root, f, inner, open);
      OrderlyThen(Emit([e], framed), after, open);
      EmitThen([e], framed, after);
    }
  }

  /** A scalar's value fits its field; a body's field is a message. */
  lemma ScalarFits(descs: Descs, m: nat, s: seq<byte>, last: Option<Field>, keep: bool)
    requires s != []
    ensures var h := ReadField(descs, m, s, last, keep);
            && (h.Scalar? ==> Fits(h.f.typ, h.v) && !h.f.typ.Message?)
            && (h.Body? ==> h.f.typ.Message?)
  {
    hide FromWire, Fits;
  }

  /** On every input, accepted or truncated, the handlers see a properly nested sequence: each frame is started
      once, a nested message's right after its field's event, ends are those of the innermost frame, and an
      accepted message closes every frame it opened. */
  lemma HandlersSeeNestedFrames(descs: Descs, m: nat, s: seq<byte>)
    ensures var r := Follow(Parse(descs, m, s, true).events, Frames([], Some(m)));
            r.Some? && (Parse(descs, m, s, true).status.Done? ==> r.value == Frames([], None))
  {
    hide ParseFields, FollowOne;
    FieldsOrderly(descs, m, m, s, None, true, [Open(m, false)]);
    assert [] + [Open(m, false)] == [Open(m, false)];
    FramedFollows(m, false, ParseFields(descs, m, m, s, None, 1, true), Frames([], Some(m)));
  }
}
