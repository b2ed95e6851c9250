/** Fields with undeclared numbers. The decoder means to skip them, but keeps the descriptor of the last field
    and decodes them as that field. Here is exactly when its events are nevertheless those of a decoder that
    skips them. */
module UnknownFields {
  import opened Wire
  import opened Schema
  import opened Parser

  /** The field at the front has a number its message does not declare. */
  predicate Undeclared(descs: Descs, m: nat, s: seq<byte>) {
    match ReadVarint(s)
    case Got(key, _) => Lookup(FieldsOf(descs, m), key / 8 % TWO32).None?
    case _ => false
  }

  /** No undeclared number is met, at any depth, once a field has been decoded: wherever the number is not
      found, the descriptor is still NULL. */
  ghost predicate Clean(descs: Descs, root: nat, m: nat, s: seq<byte>, last: Option<Field>, depth: nat)
    decreases |s|
  {
    s == [] ||
    match ReadField(descs, m, s, last, true)
    case Stopped(_) => true
    case Skipped(k) => Clean(descs, root, m, s[k..], last, depth)
    case Scalar(f, _, k) => !Undeclared(descs, m, s) && Clean(descs, root, m, s[k..], Some(f), depth)
    case PackedBody(f, _, k) => !Undeclared(descs, m, s) && Clean(descs, root, m, s[k..], Some(f), depth)
    case Body(f, body, k) =>
      && !Undeclared(descs, m, s)
      && Clean(descs, root, f.msg, body, Some(f), depth + 1)
      && Clean(descs, root, m, s[k..], ParseFields(descs, root, f.msg, body, Some(f), depth + 1, true).last, depth)
  }

  /** What keeping the descriptor changes about one field: nothing for a declared number. */
  lemma ReadFieldBoth(descs: Descs, m: nat, s: seq<byte>, last: Option<Field>, other: Option<Field>)
    requires s != []
    ensures var h, g := ReadField(descs, m, s, last, true), ReadField(descs, m, s, other, false);
            && (h.Stopped? || if Undeclared(descs, m, s) then g == Skipped(h.used) else g == h && !h.Skipped?)
            && (h.Skipped? ==> last.None?)
  {
  }

  /** How a parse that keeps the descriptor compares with one that skips. */
  ghost predicate Compared(p: Parsed, q: Parsed, clean: bool) {
    && q.status.Done?
    && (if clean then p.events == q.events else |q.events| < |p.events|)
  }

  /** A field's own events, reported by both decoders or only by the one that keeps the descriptor. */
  lemma ComparedField(es: seq<Event>, p: Parsed, q: Parsed, clean: bool)
    requires Compared(p, q, clean)
    ensures Compared(Emit(es, p), Emit(es, q), clean)
    ensures es != [] ==> Compared(Emit(es, p), q, false)
  {
  }

  /** The same for the events of a frame, followed by what comes after it. */
  lemma ComparedFrame(m: nat, depth: nat, packed: bool, p: Parsed, q: Parsed, c: bool, p': Parsed, q': Parsed, c': bool)
    requires p.status.Done? && Compared(p, q, c) && Compared(p', q', c')
    ensures Compared(Then(Framed(m, depth, packed, p), p'), Then(Framed(m, depth, packed, q), q'), c && c')
    ensures Compared(Then(Framed(m, depth, packed, p), p'), q', false)
  {
  }

  /** The decoder's events against those of a decoder that skips, whatever field that one decoded last: where the
      decoder succeeds, so does the other, with the same events on clean input and fewer on any other. */
  lemma {:induction false} KeepingAgainstSkipping(descs: Descs, root: nat, m: nat, s: seq<byte>, last: Option<Field>,
                                                  other: Option<Field>, depth: nat)
    requires ParseFields(descs, root, m, s, last, depth, true).status.Done?
    ensures Compared(ParseFields(descs, root, m, s, last, depth, true),
                     ParseFields(descs, root, m, s, other, depth, false),
                     Clean(descs, root, m, s, last, depth))
    decreases |s|, 1
  {
    if s != [] {
      ReadFieldBoth(descs, m, s, last, other);
      hide ReadField, Undeclared, ParsePacked, Compared;
      var unknown := Undeclared(descs, m, s);
      match ReadField(descs, m, s, last, true)
      case Skipped(k) => KeepingAgainstSkipping(descs, root, m, s[k..], last, other, depth);
      case Scalar(f, v, k) =>
        var next := if unknown then other else Some(f);
        KeepingAgainstSkipping(descs, root, m, s[k..], Some(f), next, depth);
        ComparedField([FieldEvent(m, f, Some(v))],
                      ParseFields(descs, root, m, s[k..], Some(f), depth, true),
                      ParseFields(descs, root, m, s[k..], next, depth, false),
                      Clean(descs, root, m, s[k..], Some(f), depth));
      case PackedBody(f, body, k) =>
        var next := if unknown then other else Some(f);
        var p := ParsePacked(m, f, body);
        hide Framed, Clean;
        var p' := ParseFields(descs, root, m, s[k..], Some(f), depth, true);
        DoneParts([], m, depth + 1, true, p, p');
        KeepingAgainstSkipping(descs, root, m, s[k..], Some(f), next, depth);
        ComparedSame(p);
        ComparedFrame(m, depth + 1, true, p, p, true, p',
                      ParseFields(descs, root, m, s[k..], next, depth, false),
                      Clean(descs, root, m, s[k..], Some(f), depth));
      case Body(f, body, k) => BodyCompared(descs, root, m, s, last, other, depth, f, body, k);
    }
  }

  lemma DoneParts(es: seq<Event>, m: nat, depth: nat, packed: bool, p: Parsed, p': Parsed)
    ensures Emit(es, Then(Framed(m, depth, packed, p), p')).status.Done? ==> p.status.Done? && p'.status.Done?
  {
  }

  lemma ComparedSame(p: Parsed)
    ensures p.status.Done? ==> Compared(p, p, true)
  {
  }

  lemma {:induction false} BodyCompared(descs: Descs, root: nat, m: nat, s: seq<byte>, last: Option<Field>,
                                        other: Option<Field>, depth: nat, f: Field, body: seq<byte>, k: nat)
    requires s != [] && ReadField(descs, m, s, last, true) == Body(f, body, k)
    requires ParseFields(descs, root, m, s, last, depth, true).status.Done?
    ensures Compared(ParseFields(descs, root, m, s, last, depth, true),
                     ParseFields(descs, root, m, s, other, depth, false),
                     Clean(descs, root, m, s, last, depth))
    decreases |s|, 0
  {
    hide ReadField, Undeclared, Compared, Framed, Then, Emit, ParseFields, Clean;
    var es, unknown := [FieldEvent(root, f, None)], Undeclared(descs, m, s);
    var p, q, c := ParseFields(descs, root, f.msg, body, Some(f), depth + 1, true),
                   ParseFields(descs, root, f.msg, body, Some(f), depth + 1, false),
                   Clean(descs, root, f.msg, body, Some(f), depth + 1);
    var next := if unknown then other else q.last;
    var p', q', c' := ParseFields(descs, root, m, s[k..], p.last, depth, true),
                      ParseFields(descs, root, m, s[k..], next, depth, false),
                      Clean(descs, root, m, s[k..], p.last, depth);
    BodyKept(descs, root, m, s, last, depth, f, body, k);
    BodySkipped(descs, root, m, s, last, other, depth, f, body, k);
    DoneParts(es, f.msg, depth + 1, false, p, p');
    KeepingAgainstSkipping(descs, root, f.msg, body, Some(f), Some(f), depth + 1);
    KeepingAgainstSkipping(descs, root, m, s[k..], p.last, next, depth);
    ComparedBody(es, f.msg, depth + 1, p, q, c, p', q', c', unknown);
  }

  /** What the decoder makes of a body. */
  lemma BodyKept(descs: Descs, root: nat, m: nat, s: seq<byte>, last: Option<Field>, depth: nat,
                 f: Field, body: seq<byte>, k: nat)
    requires s != [] && ReadField(descs, m, s, last, true) == Body(f, body, k)
    requires ParseFields(descs, root, m, s, last, depth, true).status.Done?
    ensures depth < MAX_DEPTH
    ensures var p := ParseFields(descs, root, f.msg, body, Some(f), depth + 1, true);
            && ParseFields(descs, root, m, s, last, depth, true)
               == Emit([FieldEvent(root, f, None)],
                       Then(Framed(f.msg, depth + 1, false, p), ParseFields(descs, root, m, s[k..], p.last, depth, true)))
            && Clean(descs, root, m, s, last, depth)
               == (&& !Undeclared(descs, m, s) && Clean(descs, root, f.msg, body, Some(f), depth + 1)
                   && Clean(descs, root, m, s[k..], p.last, depth))
  {
    hide ReadField, Undeclared;
  }

  /** What the decoder that skips makes of it. */
  lemma BodySkipped(descs: Descs, root: nat, m: nat, s: seq<byte>, last: Option<Field>, other: Option<Field>, depth: nat,
                    f: Field, body: seq<byte>, k: nat)
    requires s != [] && ReadField(descs, m, s, last, true) == Body(f, body, k) && depth < MAX_DEPTH
    ensures var q := ParseFields(descs, root, f.msg, body, Some(f), depth + 1, false);
            ParseFields(descs, root, m, s, other, depth, false)
            == if Undeclared(descs, m, s) then ParseFields(descs, root, m, s[k..], other, depth, false)
               else Emit([FieldEvent(root, f, None)],
                         Then(Framed(f.msg, depth + 1, false, q),
                              ParseFields(descs, root, m, s[k..], q.last, depth, false)))
  {
    ReadFieldBoth(descs, m, s, last, other);
    hide ReadField, Undeclared;
  }

  lemma ComparedBody(es: seq<Event>, m: nat, depth: nat, p: Parsed, q: Parsed, c: bool, p': Parsed, q': Parsed, c': bool,
                     unknown: bool)
    requires p.status.Done? && Compared(p, q, c) && Compared(p', q', c') && es != []
    ensures Compared(Emit(es, Then(Framed(m, depth, false, p), p')),
                     if unknown then q' else Emit(es, Then(Framed(m, depth, false, q), q')),
                     !unknown && c && c')
  {
    hide Compared;
    ComparedFrame(m, depth, false, p, q, c, p', q', c');
    ComparedField(es, Then(Framed(m, depth, false, p), p'), Then(Framed(m, depth, false, q), q'), c && c');
    ComparedField(es, Then(Framed(m, depth, false, p), p'), q', false);
  }

  // ---- the condition, on the bytes ----

  /** Undeclared numbers come only before the first declared one, in reading order: where they come, the
      descriptor is still NULL. The walk knows declared fields only; `started` says that one has been met. */
  ghost predicate Tidy(descs: Descs, m: nat, s: seq<byte>, started: bool)
    decreases |s|
  {
    s == [] ||
    match ReadField(descs, m, s, None, false)
    case Stopped(_) => true
    case Skipped(k) => !started && Tidy(descs, m, s[k..], started)
    case Scalar(_, _, k) => Tidy(descs, m, s[k..], true)
    case PackedBody(_, _, k) => Tidy(descs, m, s[k..], true)
    case Body(f, body, k) => Tidy(descs, f.msg, body, true) && Tidy(descs, m, s[k..], true)
  }

  /** How the two decoders read a field: alike, unless a number is undeclared and a descriptor is left over. */
  lemma ReadFieldAlike(descs: Descs, m: nat, s: seq<byte>, last: Option<Field>, other: Option<Field>)
    requires s != []
    ensures ReadField(descs, m, s, other, false) == ReadField(descs, m, s, None, false)
    ensures !Undeclared(descs, m, s) || last.None? ==>
              ReadField(descs, m, s, last, true) == ReadField(descs, m, s, None, false)
    ensures var g := ReadField(descs, m, s, None, false);
            && (Undeclared(descs, m, s) ==> g.Stopped? || g.Skipped?)
            && (!Undeclared(descs, m, s) ==> !g.Skipped?)
    ensures last.Some? ==> !ReadField(descs, m, s, last, true).Skipped?
  {
  }

  /** A descriptor once found is never lost. */
  lemma {:induction false} DescriptorStays(descs: Descs, root: nat, m: nat, s: seq<byte>, last: Option<Field>, depth: nat,
                                           keep: bool)
    requires last.Some?
    ensures ParseFields(descs, root, m, s, last, depth, keep).last.Some?
    decreases |s|
  {
    hide ReadField, ParsePacked, Framed;
    if s != [] {
      match ReadField(descs, m, s, last, keep)
      case Stopped(_) =>
      case Skipped(k) => DescriptorStays(descs, root, m, s[k..], last, depth, keep);
      case Scalar(f, _, k) => DescriptorStays(descs, root, m, s[k..], Some(f), depth, keep);
      case PackedBody(f, body, k) =>
        FramedLast(m, depth + 1, true, ParsePacked(m, f, body));
        DescriptorStays(descs, root, m, s[k..], Some(f), depth, keep);
      case Body(f, body, k) =>
        var inner := ParseFields(descs, root, f.msg, body, Some(f), depth + 1, keep);
        FramedLast(f.msg, depth + 1, false, inner);
        DescriptorStays(descs, root, f.msg, body, Some(f), depth + 1, keep);
        DescriptorStays(descs, root, m, s[k..], inner.last, depth, keep);
    }
  }

  lemma FramedLast(m: nat, depth: nat, packed: bool, p: Parsed)
    ensures Framed(m, depth, packed, p).last == p.last
    ensures Framed(m, depth, packed, p).status == p.status
  {
  }

  /** Where a skipping decoder succeeds, this one succeeds on clean input exactly when the bytes are tidy. */
  lemma {:induction false} CleanExactlyWhenTidy(descs: Descs, root: nat, m: nat, s: seq<byte>, last: Option<Field>,
                                                other: Option<Field>, depth: nat)
    requires ParseFields(descs, root, m, s, other, depth, false).status.Done?
    ensures ParseFields(descs, root, m, s, last, depth, true).status.Done? && Clean(descs, root, m, s, last, depth)
            <==> Tidy(descs, m, s, last.Some?)
    decreases |s|, 1
  {
    if s != [] {
      ReadFieldAlike(descs, m, s, last, other);
      hide ReadField, Undeclared, ParsePacked, Framed;
      if !(Undeclared(descs, m, s) && last.Some?) {
        match ReadField(descs, m, s, None, false)
        case Stopped(_) =>
        case Skipped(k) => CleanExactlyWhenTidy(descs, root, m, s[k..], last, other, depth);
        case Scalar(f, _, k) => CleanExactlyWhenTidy(descs, root, m, s[k..], Some(f), Some(f), depth);
        case PackedBody(f, body, k) =>
          FramedLast(m, depth + 1, true, ParsePacked(m, f, body));
          CleanExactlyWhenTidy(descs, root, m, s[k..], Some(f), Some(f), depth);
        case Body(f, body, k) => BodyTidy(descs, root, m, s, last, other, depth, f, body, k);
      }
    }
  }

  lemma {:induction false} BodyTidy(descs: Descs, root: nat, m: nat, s: seq<byte>, last: Option<Field>,
                                    other: Option<Field>, depth: nat, f: Field, body: seq<byte>, k: nat)
    requires s != [] && ReadField(descs, m, s, None, false) == Body(f, body, k)
    requires ReadField(descs, m, s, last, true) == ReadField(descs, m, s, None, false) && !Undeclared(descs, m, s)
    requires ReadField(descs, m, s, other, false) == ReadField(descs, m, s, None, false)
    requires ParseFields(descs, root, m, s, other, depth, false).status.Done?
    ensures ParseFields(descs, root, m, s, last, depth, true).status.Done? && Clean(descs, root, m, s, last, depth)
            <==> Tidy(descs, m, s, last.Some?)
    decreases |s|, 0
  {
    hide ReadField, Undeclared, Framed;
    var p, q := ParseFields(descs, root, f.msg, body, Some(f), depth + 1, true),
                ParseFields(descs, root, f.msg, body, Some(f), depth + 1, false);
    FramedLast(f.msg, depth + 1, false, p);
    FramedLast(f.msg, depth + 1, false, q);
    DescriptorStays(descs, root, f.msg, body, Some(f), depth + 1, true);
    CleanExactlyWhenTidy(descs, root, f.msg, body, Some(f), Some(f), depth + 1);
    CleanExactlyWhenTidy(descs, root, m, s[k..], p.last, q.last, depth);
  }

  /** A decoder that skips undeclared fields accepts all that this decoder does. On every message it accepts, this
      decoder does too, with the same handler calls, if and only if no undeclared field follows a declared one. */
  lemma SkipsUnknownFieldsExactlyWhenTidy(descs: Descs, m: nat, s: seq<byte>)
    ensures Parse(descs, m, s, true).status.Done? ==> Parse(descs, m, s, false).status.Done?
    ensures Parse(descs, m, s, false).status.Done? ==>
              (Parse(descs, m, s, true).status.Done? && Parse(descs, m, s, true).events == Parse(descs, m, s, false).events
               <==> Tidy(descs, m, s, false))
  {
    hide ParseFields;
    if ParseFields(descs, m, m, s, None, 1, false).status.Done? {
      CleanExactlyWhenTidy(descs, m, m, s, None, None, 1);
    }
    if ParseFields(descs, m, m, s, None, 1, true).status.Done? {
      KeepingAgainstSkipping(descs, m, m, s, None, None, 1);
      ComparedWhole(m, ParseFields(descs, m, m, s, None, 1, true), ParseFields(descs, m, m, s, None, 1, false),
                    Clean(descs, m, m, s, None, 1));
    }
  }

  lemma ComparedWhole(m: nat, p: Parsed, q: Parsed, clean: bool)
    requires p.status.Done? && Compared(p, q, clean)
    ensures Framed(m, 1, false, p).events == Framed(m, 1, false, q).events <==> clean
  {
  }

  /** The smallest example: field 1 declared, field 2 not. The decoder reports field 2's value as a second
      value of field 1. */
  lemma UnknownFieldIsNotSkipped(f: Field)
    requires f == Field(0, 1, UInt32, Optional, false, 0, "a")
    ensures Parse([MsgDesc([f])], 0, [0x08, 5, 0x10, 7], true).events
            == [MsgStart(0, 1, false), FieldEvent(0, f, Some(Num(5))), FieldEvent(0, f, Some(Num(7))), MsgEnd(0, 1, false)]
    ensures Parse([MsgDesc([f])], 0, [0x08, 5, 0x10, 7], false).events
            == [MsgStart(0, 1, false), FieldEvent(0, f, Some(Num(5))), MsgEnd(0, 1, false)]
  {
    var descs, s := [MsgDesc([f])], [0x08, 5, 0x10, 7];
    assert s[2..] == [0x10, 7] && s[2..][2..] == [];
    SmallField(f, 0x08, 5, s, None);
    SmallField(f, 0x10, 7, s[2..], Some(f));
    hide ReadField;
    var end := s[2..][2..];
    assert ParseFields(descs, 0, 0, end, Some(f), 1, true) == Parsed([], Done, Some(f));
    assert ParseFields(descs, 0, 0, end, Some(f), 1, false) == Parsed([], Done, Some(f));
    var tail := ParseFields(descs, 0, 0, s[2..], Some(f), 1, true);
    assert tail == Emit([FieldEvent(0, f, Some(Num(7)))], Parsed([], Done, Some(f)));
    assert ParseFields(descs, 0, 0, s, None, 1, true) == Emit([FieldEvent(0, f, Some(Num(5)))], tail);
    assert ParseFields(descs, 0, 0, s[2..], Some(f), 1, false) == Parsed([], Done, Some(f));
  }

  /** An undeclared string behind a declared integer: a decoder that skips accepts the message, this one takes the
      string for the integer, whose wire type it does not have. */
  lemma UnknownStringIsNotSkipped(f: Field)
    requires f == Field(0, 1, UInt32, Optional, false, 0, "a")
    ensures var s := [0x08, 5, 0x12, 1, 0x61];
            && Parse([MsgDesc([f])], 0, s, false).status.Done? && !Tidy([MsgDesc([f])], 0, s, false)
            && Parse([MsgDesc([f])], 0, s, true).status.Unmodelled?
  {
    var descs, s := [MsgDesc([f])], [0x08, 5, 0x12, 1, 0x61];
    assert s[2..] == [0x12, 1, 0x61] && s[2..][3..] == [];
    SmallField(f, 0x08, 5, s, None);
    SmallField(f, 0x08, 5, s, Some(f));
    assert ReadField(descs, 0, s, None, false) == Scalar(f, Num(5), 2);
    UnknownString(f, s[2..]);
    hide ReadField;
    var end := s[2..][3..];
    assert ParseFields(descs, 0, 0, end, Some(f), 1, false) == Parsed([], Done, Some(f));
    assert ParseFields(descs, 0, 0, s[2..], Some(f), 1, false) == Parsed([], Done, Some(f));
    assert ParseFields(descs, 0, 0, s[2..], Some(f), 1, true) == Parsed([], Unmodelled, Some(f));
    assert !Tidy(descs, 0, s[2..], true);
  }

  lemma UnknownString(f: Field, s: seq<byte>)
    requires f == Field(0, 1, UInt32, Optional, false, 0, "a") && s == [0x12, 1, 0x61]
    ensures ReadField([MsgDesc([f])], 0, s, Some(f), true) == Stopped(Unmodelled)
    ensures ReadField([MsgDesc([f])], 0, s, Some(f), false) == ReadField([MsgDesc([f])], 0, s, None, false) == Skipped(3)
  {
    assert FieldsOf([MsgDesc([f])], 0) == [f] && [f][1..] == [];
    assert ReadVarint(s) == Got(0x12, 1) && s[1..] == [1, 0x61] && ReadVarint(s[1..]) == Got(1, 1);
    assert ReadWire(2, s[1..]) == Read(WString(s[1..][1..2]), 2);
  }

  /** Two-byte fields of the example. */
  lemma SmallField(f: Field, key: byte, v: byte, s: seq<byte>, last: Option<Field>)
    requires f == Field(0, 1, UInt32, Optional, false, 0, "a")
    requires (key == 0x08 || (key == 0x10 && last == Some(f))) && v < 128 && |s| >= 2 && s[0] == key && s[1] == v
    ensures ReadField([MsgDesc([f])], 0, s, last, true) == Scalar(f, Num(v), 2)
    ensures ReadField([MsgDesc([f])], 0, s, last, false) == if key == 0x08 then Scalar(f, Num(v), 2) else Skipped(2)
  {
    assert FieldsOf([MsgDesc([f])], 0) == [f] && [f][1..] == [];
    assert ReadVarint(s) == Got(key, 1) && s[1..][0] == v && ReadVarint(s[1..]) == Got(v, 1);
    assert ReadWire(0, s[1..]) == Read(WVarint(v), 1);
  }
}
