/** The Python dict builder as it runs: handlers that change the decoder context in place (python/decoder.c). */
module DictBuilder {
  import opened Wire
  import opened Schema
  import opened Parser
  import opened EventOrder
  import opened DictDecoder
  import Decoder

  // ---- the context stack follows the decoder's frames ----

  /** The open frames that are messages. */
  function Messages(open: seq<Open>): nat {
    if open == [] then 0 else Messages(open[..|open| - 1]) + if open[|open| - 1].packed then 0 else 1
  }

  /** The context stack holds one object for every open message and one for a message just announced. */
  ghost predicate Tracks(c: Context, st: Frames) {
    && |c.stack| == Messages(st.open) + (if st.announced.Some? then 1 else 0)
    && (st.open != [] ==> !st.open[0].packed)
  }

  lemma {:induction false} MessagesInside(open: seq<Open>)
    requires open != [] && !open[0].packed
    ensures Messages(open) >= 1
    decreases |open|
  {
    if |open| > 1 {
      assert open[..|open| - 1][0] == open[0];
      MessagesInside(open[..|open| - 1]);
    }
  }

  lemma TracksOne(c: Context, st: Frames, e: Event)
    requires Tracks(c, st) && FollowOne(e, st).Some?
    ensures Tracks(OnEvent(c, e), FollowOne(e, st).value)
    ensures e.FieldEvent? ==> c.stack != []
  {
    match e
    case MsgStart(m, _, packed) =>
      var open := st.open + [Open(m, packed)];
      assert open[..|open| - 1] == st.open;
    case MsgEnd(_, _, _) => MessagesInside(st.open);
    case FieldEvent(_, _, _) => MessagesInside(st.open);
  }

  lemma {:induction false} TracksAll(c: Context, st: Frames, es: seq<Event>, k: nat)
    requires Tracks(c, st) && Follow(es, st).Some? && k <= |es|
    ensures Follow(es[..k], st).Some? && Tracks(Handle(c, es[..k]), Follow(es[..k], st).value)
    ensures k < |es| && es[k].FieldEvent? ==> Handle(c, es[..k]).stack != []
    decreases |es|
  {
    hide FollowOne, Tracks, OnEvent;
    if es != [] {
      TracksOne(c, st, es[0]);
      if k > 0 {
        assert es[..k][0] == es[0] && es[..k][1..] == es[1..][..k - 1];
        TracksAll(OnEvent(c, es[0]), FollowOne(es[0], st).value, es[1..], k - 1);
      }
    }
  }

  /** At every point of every run, whatever the bytes, the context stack is as deep as the open messages are
      nested, a message just announced included; a field never finds it empty, and a complete run leaves it so. */
  lemma ContextStackDepth(descs: Descs, m: nat, s: seq<byte>, k: nat)
    requires k <= |Parse(descs, m, s, true).events|
    ensures var p := Parse(descs, m, s, true);
            var st, c := Follow(p.events[..k], Frames([], Some(m))), Handle(Fresh(), p.events[..k]);
            && st.Some? && |c.stack| == Messages(st.value.open) + (if st.value.announced.Some? then 1 else 0)
            && (k < |p.events| && p.events[k].FieldEvent? ==> c.stack != [])
            && (k == |p.events| && p.status.Done? ==> c.stack == [])
  {
    hide Parse, FollowOne, OnEvent;
    var p := Parse(descs, m, s, true);
    HandlersSeeNestedFrames(descs, m, s);
    TracksAll(Fresh(), Frames([], Some(m)), p.events, k);
    assert p.events[..|p.events|] == p.events;
  }

  // ---- the builder ----

  class DictBuilder {
    var store: Store
    var next: nat
    var stack: seq<nat>

    /** The decoder context this builder is in. */
    function State(): Context
      reads this
    {
      Context(store, next, stack)
    }

    constructor ()
      ensures State() == Fresh()
    {
      store, next, stack := map[0 := map[]], 1, [0];
    }

    /** Leaving a message pops its dict off the context stack. */
    method MsgEndHandler(packed: bool)
      modifies this`stack
      ensures State() == OnEnd(old(State()), packed)
    {
      if !packed {
        var stacklen := |stack|;
        if stacklen > 0 {
          stack := stack[..stacklen - 1];
        }
      }
    }

    /** Stores a value, or creates or acquires the dict for a nested message and pushes it. */
    method FieldHandler(f: Field, v: Option<Value>)
      requires stack != []
      modifies this
      ensures State() == OnField(old(State()), f, v)
    {
      var top := stack[|stack| - 1];
      var isDict := top in store;
      var pushed;
      if v.Some? {
        if isDict {
          Put(top, f, Leaf(v.value));
        }
        return;
      }
      if isDict && !f.rule.Repeated? && f.name in store[top] {
        var current := store[top][f.name];
        if current.One? && current.e.Sub? {
          pushed := current.e.a;
        } else {
          pushed, next := next, next + 1;
        }
      } else {
        pushed, next := next, next + 1;
        store := store[pushed := map[]];
        if isDict {
          Put(top, f, Sub(pushed));
        }
      }
      stack := stack + [pushed];
    }

    /** Appends to the list under the field's name, which is made first if need be, or replaces what is there. */
    method Put(top: nat, f: Field, e: Elem)
      requires top in store
      modifies this`store
      ensures store == old(store)[top := Put1(old(store)[top], f, e)]
    {
      var cell := store[top];
      if f.rule.Repeated? {
        if f.name !in cell {
          cell := cell[f.name := Many([])];
        }
        if cell[f.name].Many? {
          var es := cell[f.name].es;
          cell := cell[f.name := Many(es + [e])];
          assert es == [] ==> es + [e] == [e];
        }
      } else {
        cell := cell[f.name := One(e)];
      }
      assert cell == Put1(store[top], f, e);
      store := store[top := cell];
    }

    /** Calls the handlers of one event. */
    method Notify(e: Event)
      requires e.FieldEvent? ==> stack != []
      modifies this
      ensures State() == OnEvent(old(State()), e)
    {
      match e
      case MsgStart(_, _, _) =>
      case MsgEnd(_, _, packed) => MsgEndHandler(packed);
      case FieldEvent(_, f, v) => FieldHandler(f, v);
    }

    /** Decodes a message into nested dicts: on success the address of the outermost one, on a truncated
        message none. */
    method Decode(d: Decoder.Decoder, m: nat, data: seq<byte>) returns (dst: Option<nat>)
      requires d.stack.Length == MAX_DEPTH
      requires Defined(Parse(d.descs, m, data, true).status)
      modifies this, d, d.stack
      ensures State() == Handle(Fresh(), Parse(d.descs, m, data, true).events)
      ensures dst == if Parse(d.descs, m, data, true).status.Done? then Some(0) else None
      ensures dst.Some? ==> stack == []
    {
      hide Parse, OnEvent, Handle;
      store, next, stack := map[0 := map[]], 1, [0];
      var err, _ := d.Decode(m, data);
      ghost var es := Parse(d.descs, m, data, true).events;
      HandleNothing(Fresh());
      for i := 0 to |d.trace|
        invariant d.trace == es && State() == Handle(Fresh(), es[..i])
      {
        ContextStackDepth(d.descs, m, data, i);
        HandleConcat(Fresh(), es[..i], [es[i]]);
        HandleOne(Handle(Fresh(), es[..i]), es[i]);
        assert es[..i + 1] == es[..i] + [es[i]];
        Notify(d.trace[i]);
      }
      assert es[..|es|] == es;
      ContextStackDepth(d.descs, m, data, |es|);
      dst := if err.Ok? then Some(0) else None;
    }
  }

  lemma HandleNothing(c: Context)
    ensures Handle(c, []) == c
  {
  }
}
