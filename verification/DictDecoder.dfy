/** The Python dict builder (python/decoder.c): handlers that fill nested dicts in place while the decoder runs.
    Dicts live in a store, at addresses, because the context stack and the dicts around them refer to the same
    objects. */
module DictDecoder {
  import opened Schema
  import Scalars
  import Wire
  import opened Format
  import opened Parser
  import opened RoundTrip
  import opened PyObjects
  import opened DictEncoder

  // ---- objects in a store ----

  datatype Elem = Leaf(v: Value) | Sub(a: nat)
  datatype Entry = One(e: Elem) | Many(es: seq<Elem>)
  type Cell = map<string, Entry>
  type Store = map<nat, Cell>

  /** The decoder context: the dicts made so far, the next free address, and the addresses of the objects being
      filled, outermost first. An address that is not in the store is that of an object that is no dict. */
  datatype Context = Context(store: Store, next: nat, stack: seq<nat>) {
    predicate Valid() {
      stack != [] && Top() in store && next !in store
    }

    function Top(): nat
      requires stack != []
    {
      stack[|stack| - 1]
    }
  }

  // ---- the handlers ----

  /** The field handler. A value goes under the field's name; no value announces a nested message, whose dict is
      pushed: a new one, or for a field that is not repeated whatever is already there. Nothing can be stored in
      an object that is no dict. */
  function OnField(c: Context, f: Field, v: Option<Value>): (r: Context)
    requires c.stack != []
  {
    var t := c.Top();
    if v.Some? then
      if t in c.store then c.(store := c.store[t := Put1(c.store[t], f, Leaf(v.value))]) else c
    else if t !in c.store then
      Context(c.store[c.next := map[]], c.next + 1, c.stack + [c.next])
    else if f.rule.Repeated? || f.name !in c.store[t] then
      var s := c.store[c.next := map[]];
      Context(s[t := Put1(s[t], f, Sub(c.next))], c.next + 1, c.stack + [c.next])
    else if c.store[t][f.name].One? && c.store[t][f.name].e.Sub? then
      c.(stack := c.stack + [c.store[t][f.name].e.a])
    else
      Context(c.store, c.next + 1, c.stack + [c.next])
  }

  /** Appends to the list under a repeated field's name, or replaces what is under any other. */
  function Put1(cell: Cell, f: Field, e: Elem): Cell {
    if !f.rule.Repeated? then cell[f.name := One(e)]
    else if f.name !in cell then cell[f.name := Many([e])]
    else if cell[f.name].Many? then cell[f.name := Many(cell[f.name].es + [e])]
    else cell
  }

  /** The end handler: leaving a message pops its dict; leaving a packed field does not. */
  function OnEnd(c: Context, packed: bool): (r: Context) {
    if packed || c.stack == [] then c else c.(stack := c.stack[..|c.stack| - 1])
  }

  function OnEvent(c: Context, e: Event): Context {
    match e
    case MsgStart(_, _, _) => c
    case MsgEnd(_, _, packed) => OnEnd(c, packed)
    case FieldEvent(_, f, v) => if c.stack != [] then OnField(c, f, v) else c
  }

  /** All events of a run. */
  function Handle(c: Context, es: seq<Event>): (r: Context)
    decreases |es|
  {
    if es == [] then c else Handle(OnEvent(c, es[0]), es[1..])
  }

  lemma {:induction false} HandleConcat(c: Context, a: seq<Event>, b: seq<Event>)
    ensures Handle(c, a + b) == Handle(Handle(c, a), b)
    decreases |a|
  {
    hide OnEvent;
    if a == [] {
      assert a + b == b;
    } else {
      assert (a + b)[0] == a[0] && (a + b)[1..] == a[1..] + b;
      HandleConcat(OnEvent(c, a[0]), a[1..], b);
    }
  }

  lemma HandleOne(c: Context, e: Event)
    ensures Handle(c, [e]) == OnEvent(c, e)
  {
    hide OnEvent;
    assert [e][1..] == [];
    assert Handle(OnEvent(c, e), []) == OnEvent(c, e);
  }

  // ---- what a run means on values ----

  function ListAt(d: map<string, PyObj>, k: string): seq<PyObj> {
    if k in d && d[k].PyList? then d[k].xs else []
  }

  function DictAt(d: map<string, PyObj>, k: string): map<string, PyObj> {
    if k in d && d[k].PyDict? then d[k].d else map[]
  }

  /** A value for a field: repeated fields collect, the last value of any other wins. */
  function Assign(d: map<string, PyObj>, f: Field, x: PyObj): map<string, PyObj> {
    d[f.name := if f.rule.Repeated? then PyList(ListAt(d, f.name) + [x]) else x]
  }

  function AssignAll(d: map<string, PyObj>, f: Field, vs: seq<Value>): map<string, PyObj>
    decreases |vs|
  {
    if vs == [] then d else AssignAll(Assign(d, f, PyScalar(vs[0])), f, vs[1..])
  }

  /** Merging a message into a dict: nested messages that are not repeated are merged into the dict already
      there. */
  ghost function Merge(d: map<string, PyObj>, items: seq<Item>): map<string, PyObj>
    decreases items, 1
  {
    if items == [] then d else Merge(MergeItem(d, items[0]), items[1..])
  }

  ghost function MergeItem(d: map<string, PyObj>, it: Item): map<string, PyObj>
    decreases it, 0
  {
    match it
    case Single(f, v) => Assign(d, f, PyScalar(v))
    case Packed(f, vs) => AssignAll(d, f, vs)
    case Nested(f, body) =>
      var inner := Merge(if f.rule.Repeated? then map[] else DictAt(d, f.name), body);
      Assign(d, f, PyDict(inner))
  }

  /** Decoding one message after another into the same dict is decoding their concatenation. */
  lemma {:induction false} MergeConcat(d: map<string, PyObj>, a: seq<Item>, b: seq<Item>)
    ensures Merge(d, a + b) == Merge(Merge(d, a), b)
    decreases |a|
  {
    hide MergeItem;
    if a == [] {
      assert a + b == b;
    } else {
      assert (a + b)[0] == a[0] && (a + b)[1..] == a[1..] + b;
      MergeConcat(MergeItem(d, a[0]), a[1..], b);
    }
  }

  // ---- a store is a tree ----

  /** Where a dict is referred to: the dict around it, the key, and the place in the list under it. */
  datatype Loc = Loc(p: nat, k: string, j: nat)
  type Locs = map<nat, Loc>

  predicate At(s: Store, p: nat, k: string, j: nat, e: Elem) {
    && p in s && k in s[p]
    && match s[p][k]
       case One(x) => j == 0 && e == x
       case Many(es) => j < |es| && e == es[j]
  }

  /** Every dict but the root is referred to from exactly one place, by a dict made before it. */
  ghost predicate Tree(s: Store, next: nat, at: Locs) {
    && (forall a {:trigger a in s} :: a in s ==> a < next)
    && (forall p, k, j: nat, a {:trigger At(s, p, k, j, Sub(a))} :: At(s, p, k, j, Sub(a)) ==>
          a in s && p < a && a in at && at[a] == Loc(p, k, j))
  }

  /** `y` is `t` or somewhere inside it. */
  ghost predicate Under(at: Locs, y: nat, t: nat)
    decreases y
  {
    y == t || (y in at && at[y].p < y && Under(at, at[y].p, t))
  }

  lemma {:induction false} UnderOrdered(at: Locs, y: nat, t: nat)
    requires Under(at, y, t)
    ensures t <= y
    decreases y
  {
    if y != t { UnderOrdered(at, at[y].p, t); }
  }

  lemma {:induction false} UnderTransitive(at: Locs, y: nat, x: nat, t: nat)
    requires Under(at, y, x) && Under(at, x, t)
    ensures Under(at, y, t)
    decreases y
  {
    if y != x { UnderTransitive(at, at[y].p, x, t); }
  }

  /** Of two dicts that both contain a third, one contains the other. */
  lemma {:induction false} UnderLinear(at: Locs, y: nat, a: nat, b: nat)
    requires Under(at, y, a) && Under(at, y, b)
    ensures Under(at, a, b) || Under(at, b, a)
    decreases y
  {
    if y != a && y != b { UnderLinear(at, at[y].p, a, b); }
  }

  /** Different dicts inside the same dict have nothing in common. */
  lemma Siblings(at: Locs, y: nat, a: nat, b: nat)
    requires a in at && b in at && at[a].p == at[b].p && at[a].p < a && at[b].p < b && a != b
    requires Under(at, y, a)
    ensures !Under(at, y, b)
  {
    if Under(at, y, b) {
      UnderLinear(at, y, a, b);
      if Under(at, a, b) { UnderOrdered(at, at[a].p, b); } else { UnderOrdered(at, at[b].p, a); }
    }
  }

  // ---- reading the store back ----

  /** The object at an address. */
  ghost function Read(s: Store, next: nat, at: Locs, a: nat): (x: PyObj)
    requires Tree(s, next, at) && a in s
    decreases next - a, 3
  {
    PyDict(map k | k in s[a] :: ReadEntry(s, next, at, a, k))
  }

  ghost function ReadEntry(s: Store, next: nat, at: Locs, a: nat, k: string): PyObj
    requires Tree(s, next, at) && a in s && k in s[a]
    decreases next - a, 2
  {
    match s[a][k]
    case One(_) => ReadElem(s, next, at, a, k, 0)
    case Many(es) => PyList(ReadElems(s, next, at, a, k, |es|))
  }

  ghost function ReadElems(s: Store, next: nat, at: Locs, a: nat, k: string, n: nat): (xs: seq<PyObj>)
    requires Tree(s, next, at) && a in s && k in s[a] && s[a][k].Many? && n <= |s[a][k].es|
    ensures |xs| == n
    decreases next - a, 1, n
  {
    if n == 0 then [] else ReadElems(s, next, at, a, k, n - 1) + [ReadElem(s, next, at, a, k, n - 1)]
  }

  ghost function ReadElem(s: Store, next: nat, at: Locs, a: nat, k: string, j: nat): PyObj
    requires Tree(s, next, at) && a in s && k in s[a]
    requires match s[a][k] case One(_) => j == 0 case Many(es) => j < |es|
    decreases next - a, 0
  {
    match (match s[a][k] case One(e) => e case Many(es) => es[j])
    case Leaf(v) => PyScalar(v)
    case Sub(b) => assert At(s, a, k, j, Sub(b)); Read(s, next, at, b)
  }

  // ---- reading what has not changed ----

  /** The dicts at and inside `a` are the same in both stores. */
  ghost predicate Same(s: Store, at: Locs, s': Store, a: nat) {
    forall y {:trigger y in s} :: y in s && Under(at, y, a) ==> y in s' && s'[y] == s[y]
  }

  lemma SameInside(s: Store, next: nat, at: Locs, s': Store, a: nat, k: string, j: nat, b: nat)
    requires Tree(s, next, at) && Same(s, at, s', a) && At(s, a, k, j, Sub(b))
    ensures Same(s, at, s', b)
  {
    assert at[b] == Loc(a, k, j);
    forall y | y in s && Under(at, y, b) ensures y in s' && s'[y] == s[y] {
      UnderTransitive(at, y, b, a);
    }
  }

  lemma {:induction false} ReadSame(s: Store, next: nat, at: Locs, s': Store, next': nat, at': Locs, a: nat)
    requires Tree(s, next, at) && Tree(s', next', at') && a in s && Same(s, at, s', a)
    ensures a in s' && Read(s', next', at', a) == Read(s, next, at, a)
    decreases next - a, 2
  {
    assert Under(at, a, a);
    assert s'[a] == s[a];
    forall k | k in s[a] ensures ReadEntry(s', next', at', a, k) == ReadEntry(s, next, at, a, k) {
      if s[a][k].Many? {
        ElemsSame(s, next, at, s', next', at', a, k, |s[a][k].es|);
      } else {
        ElemSame(s, next, at, s', next', at', a, k, 0);
      }
    }
  }

  lemma {:induction false} ElemsSame(s: Store, next: nat, at: Locs, s': Store, next': nat, at': Locs, a: nat, k: string, n: nat)
    requires Tree(s, next, at) && Tree(s', next', at') && a in s && a in s' && s'[a] == s[a] && Same(s, at, s', a)
    requires k in s[a] && s[a][k].Many? && n <= |s[a][k].es|
    ensures ReadElems(s', next', at', a, k, n) == ReadElems(s, next, at, a, k, n)
    decreases next - a, 1, n
  {
    if n > 0 {
      ElemsSame(s, next, at, s', next', at', a, k, n - 1);
      ElemSame(s, next, at, s', next', at', a, k, n - 1);
    }
  }

  lemma {:induction false} ElemSame(s: Store, next: nat, at: Locs, s': Store, next': nat, at': Locs, a: nat, k: string, j: nat)
    requires Tree(s, next, at) && Tree(s', next', at') && a in s && a in s' && s'[a] == s[a] && Same(s, at, s', a)
    requires k in s[a] && match s[a][k] case One(_) => j == 0 case Many(es) => j < |es|
    ensures ReadElem(s', next', at', a, k, j) == ReadElem(s, next, at, a, k, j)
    decreases next - a, 0
  {
    match (match s[a][k] case One(e) => e case Many(es) => es[j])
    case Leaf(_) =>
    case Sub(b) =>
      assert At(s, a, k, j, Sub(b)) && At(s', a, k, j, Sub(b));
      SameInside(s, next, at, s', a, k, j, b);
      ReadSame(s, next, at, s', next', at', b);
  }

  // ---- one dict has changed under one key ----

  /** The dict `t` differs at most under `k`, where it may have gained a list element; what it refers to from
      elsewhere is the same, except for the dict at `focus`. */
  ghost predicate ChangedAt(s: Store, next: nat, at: Locs, s': Store, next': nat, at': Locs, t: nat, k: string, focus: nat) {
    && Tree(s, next, at) && Tree(s', next', at') && t in s && t in s'
    && s'[t].Keys == s[t].Keys + {k} && (forall h :: h in s[t] && h != k ==> s'[t][h] == s[t][h])
    && (forall h, j: nat, b {:trigger At(s, t, h, j, Sub(b))} :: At(s, t, h, j, Sub(b)) && b != focus ==> Same(s, at, s', b))
  }

  /** Reading the changed dict: only the entry under `k` is new. */
  lemma ReadChanged(s: Store, next: nat, at: Locs, s': Store, next': nat, at': Locs, t: nat, k: string, focus: nat)
    requires ChangedAt(s, next, at, s', next', at', t, k, focus)
    requires forall h, j: nat {:trigger At(s, t, h, j, Sub(focus))} :: At(s, t, h, j, Sub(focus)) ==> h == k
    ensures Read(s', next', at', t).d == Read(s, next, at, t).d[k := ReadEntry(s', next', at', t, k)]
  {
    forall h | h in s[t] && h != k ensures ReadEntry(s', next', at', t, h) == ReadEntry(s, next, at, t, h) {
      if s[t][h].Many? {
        OtherElems(s, next, at, s', next', at', t, k, focus, h, |s[t][h].es|);
      } else {
        OtherElem(s, next, at, s', next', at', t, k, focus, h, 0);
      }
    }
  }

  lemma {:induction false} OtherElems(s: Store, next: nat, at: Locs, s': Store, next': nat, at': Locs, t: nat, k: string,
                                      focus: nat, h: string, n: nat)
    requires ChangedAt(s, next, at, s', next', at', t, k, focus)
    requires h in s[t] && s[t][h].Many? && s'[t][h].Many? && s[t][h].es <= s'[t][h].es && n <= |s[t][h].es|
    requires forall j: nat {:trigger At(s, t, h, j, Sub(focus))} :: j < n ==> !At(s, t, h, j, Sub(focus))
    ensures ReadElems(s', next', at', t, h, n) == ReadElems(s, next, at, t, h, n)
    decreases n
  {
    if n > 0 {
      OtherElems(s, next, at, s', next', at', t, k, focus, h, n - 1);
      OtherElem(s, next, at, s', next', at', t, k, focus, h, n - 1);
    }
  }

  lemma OtherElem(s: Store, next: nat, at: Locs, s': Store, next': nat, at': Locs, t: nat, k: string, focus: nat,
                  h: string, j: nat)
    requires ChangedAt(s, next, at, s', next', at', t, k, focus)
    requires h in s[t] && match s[t][h]
                          case One(e) => j == 0 && s'[t][h] == s[t][h]
                          case Many(es) => j < |es| && s'[t][h].Many? && es <= s'[t][h].es
    requires !At(s, t, h, j, Sub(focus))
    ensures ReadElem(s', next', at', t, h, j) == ReadElem(s, next, at, t, h, j)
  {
    match (match s[t][h] case One(e) => e case Many(es) => es[j])
    case Leaf(_) =>
    case Sub(b) =>
      assert At(s, t, h, j, Sub(b)) && At(s', t, h, j, Sub(b));
      ReadSame(s, next, at, s', next', at', b);
  }

  /** A list that has gained an element. */
  lemma ReadAppended(s: Store, next: nat, at: Locs, s': Store, next': nat, at': Locs, t: nat, k: string, focus: nat, e: Elem)
    requires ChangedAt(s, next, at, s', next', at', t, k, focus)
    requires forall h, j: nat {:trigger At(s, t, h, j, Sub(focus))} :: !At(s, t, h, j, Sub(focus))
    requires s'[t][k] == Many((if k in s[t] && s[t][k].Many? then s[t][k].es else []) + [e])
    requires k in s[t] ==> s[t][k].Many?
    ensures var n := |s'[t][k].es| - 1;
            ReadEntry(s', next', at', t, k)
            == PyList(ListAt(Read(s, next, at, t).d, k) + [ReadElem(s', next', at', t, k, n)])
  {
    if k in s[t] {
      OtherElems(s, next, at, s', next', at', t, k, focus, k, |s[t][k].es|);
    }
  }

  // ---- what filling a dict leaves alone ----

  /** Only dicts at or inside `t` have changed, new ones have been added, and no dict has been moved. */
  ghost predicate Kept(c: Context, at: Locs, c': Context, at': Locs, t: nat) {
    && c.next <= c'.next
    && (forall y {:trigger y in c.store} :: y in c.store ==>
          y in c'.store && (!Under(at, y, t) ==> c'.store[y] == c.store[y]))
    && SameLocs(at, at', c.next)
  }

  ghost predicate SameLocs(at: Locs, at': Locs, n: nat) {
    forall y: nat {:trigger y in at} {:trigger y in at'} :: y < n ==>
      (y in at <==> y in at') && (y in at ==> at'[y] == at[y])
  }

  lemma {:induction false} UnderSame(at: Locs, at': Locs, n: nat, y: nat, t: nat)
    requires SameLocs(at, at', n) && y < n
    ensures Under(at, y, t) == Under(at', y, t)
    decreases y
  {
    if y != t && y in at && at[y].p < y { UnderSame(at, at', n, at[y].p, t); }
  }

  /** The innermost dict has been filled and now reads `d`. */
  ghost predicate Filled(c: Context, at: Locs, c': Context, at': Locs, d: map<string, PyObj>) {
    && c.Valid() && c'.Valid() && c'.stack == c.stack
    && Tree(c.store, c.next, at) && Tree(c'.store, c'.next, at')
    && Kept(c, at, c', at', c.Top())
    && Read(c'.store, c'.next, at', c.Top()).d == d
  }

  lemma FilledThen(c0: Context, at0: Locs, c1: Context, at1: Locs, c2: Context, at2: Locs,
                   d1: map<string, PyObj>, d2: map<string, PyObj>)
    requires Filled(c0, at0, c1, at1, d1) && Filled(c1, at1, c2, at2, d2)
    ensures Filled(c0, at0, c2, at2, d2)
  {
    forall y | y in c0.store
      ensures y in c2.store && (!Under(at0, y, c0.Top()) ==> c2.store[y] == c0.store[y])
    {
      UnderSame(at0, at1, c0.next, y, c0.Top());
    }
  }

  // ---- one value ----

  /** The entry for a repeated field is a list, the entry for a nested message that is not repeated a dict. */
  predicate KindOk(cell: Cell, f: Field) {
    f.name in cell ==>
      if f.rule.Repeated? then cell[f.name].Many?
      else f.typ.Message? ==> cell[f.name].One? && cell[f.name].e.Sub?
  }

  lemma ValueFilled(c: Context, at: Locs, f: Field, v: Value)
    requires c.Valid() && Tree(c.store, c.next, at) && KindOk(c.store[c.Top()], f)
    ensures Filled(c, at, OnField(c, f, Some(v)), at,
                   Assign(Read(c.store, c.next, at, c.Top()).d, f, PyScalar(v)))
  {
    var c', t, k := OnField(c, f, Some(v)), c.Top(), f.name;
    var s, s' := c.store, c'.store;
    forall p, k', j: nat, a | At(s', p, k', j, Sub(a)) ensures At(s, p, k', j, Sub(a)) {
    }
    assert Tree(s', c.next, at);
    forall h, j: nat, b | At(s, t, h, j, Sub(b)) ensures Same(s, at, s', b) {
      forall y | y in s && Under(at, y, b) ensures y in s' && s'[y] == s[y] {
        UnderOrdered(at, y, b);
      }
    }
    assert ChangedAt(s, c.next, at, s', c.next, at, t, k, t);
    assert forall h, j: nat {:trigger At(s, t, h, j, Sub(t))} :: !At(s, t, h, j, Sub(t));
    ReadChanged(s, c.next, at, s', c.next, at, t, k, t);
    if f.rule.Repeated? {
      ReadAppended(s, c.next, at, s', c.next, at, t, k, t, Leaf(v));
    }
    assert Under(at, t, t);
  }

  /** The elements of a packed field, one event each. */
  lemma {:induction false} ValuesFilled(c: Context, at: Locs, m: nat, f: Field, vs: seq<Value>)
    requires c.Valid() && Tree(c.store, c.next, at) && KindOk(c.store[c.Top()], f) && f.rule.Repeated?
    ensures Filled(c, at, Handle(c, ElementEvents(m, f, vs)), at,
                   AssignAll(Read(c.store, c.next, at, c.Top()).d, f, vs))
    decreases |vs|
  {
    hide Tree, Kept;
    if vs == [] {
      KeptNothing(c, at);
    } else {
      var e := FieldEvent(m, f, Some(vs[0]));
      var c1 := OnField(c, f, Some(vs[0]));
      ValueFilled(c, at, f, vs[0]);
      HandleOne(c, e);
      HandleConcat(c, [e], ElementEvents(m, f, vs[1..]));
      ValuesFilled(c1, at, m, f, vs[1..]);
      var d1 := Assign(Read(c.store, c.next, at, c.Top()).d, f, PyScalar(vs[0]));
      FilledThen(c, at, c1, at, Handle(c1, ElementEvents(m, f, vs[1..])), at, d1, AssignAll(d1, f, vs[1..]));
    }
  }

  lemma KeptNothing(c: Context, at: Locs)
    requires c.Valid()
    ensures Kept(c, at, c, at, c.Top())
  {
  }

  // ---- nested messages ----

  /** Announcing a nested message whose dict is new. */
  lemma OpenFresh(c: Context, at: Locs, f: Field) returns (at': Locs)
    requires c.Valid() && Tree(c.store, c.next, at) && KindOk(c.store[c.Top()], f)
    requires f.rule.Repeated? || f.name !in c.store[c.Top()]
    ensures var c', n := OnField(c, f, None), c.next;
            && c'.Valid() && c'.Top() == n && c'.next == n + 1 && Tree(c'.store, c'.next, at')
            && c'.store == c.store[n := map[]][c.Top() := Put1(c.store[c.Top()], f, Sub(n))]
            && c'.stack == c.stack + [n]
            && SameLocs(at, at', n) && Read(c'.store, c'.next, at', n) == PyDict(map[])
  {
    var n, t, cell := c.next, c.Top(), c.store[c.Top()];
    var J := if f.rule.Repeated? && f.name in cell then |cell[f.name].es| else 0;
    at' := at[n := Loc(t, f.name, J)];
    var s, s' := c.store, OnField(c, f, None).store;
    forall p, k, j: nat, a {:trigger At(s', p, k, j, Sub(a))} | At(s', p, k, j, Sub(a))
      ensures a in s' && p < a && a in at' && at'[a] == Loc(p, k, j)
    {
      if a != n {
        assert At(s, p, k, j, Sub(a));
      } else {
        assert !At(s, p, k, j, Sub(n));
        assert p == t && k == f.name && j == J;
      }
    }
    assert forall a {:trigger a in s'} :: a in s' ==> a < n + 1;
    assert Tree(s', n + 1, at');
  }

  /** The nested message has been filled and its dict popped: seen from the dict around it. `focus` is the
      nested dict; what the dict around it holds besides has not changed. */
  lemma CloseFilled(c: Context, at: Locs, f: Field, c1: Context, at1: Locs, c2: Context, at2: Locs,
                    d: map<string, PyObj>, isNew: bool)
    requires c.Valid() && Tree(c.store, c.next, at) && KindOk(c.store[c.Top()], f) && f.typ.Message?
    requires Filled(c1, at1, c2, at2, d) && SameLocs(at, at1, c.next) && c.next <= c1.next
    requires c1.stack == c.stack + [c1.Top()]
    requires var t := c.Top();
             if isNew then
               && (f.rule.Repeated? || f.name !in c.store[t]) && c1.Top() == c.next
               && c1.store == c.store[c.next := map[]][t := Put1(c.store[t], f, Sub(c.next))]
             else
               && c1.store == c.store && c1.next == c.next && at1 == at && !f.rule.Repeated?
               && At(c.store, t, f.name, 0, Sub(c1.Top()))
    ensures Filled(c, at, c2.(stack := c.stack), at2, Assign(Read(c.store, c.next, at, c.Top()).d, f, PyDict(d)))
  {
    hide Kept, SameLocs;
    var t, k, n := c.Top(), f.name, c1.Top();
    var s, s' := c.store, c2.store;
    var c3 := c2.(stack := c.stack);
    KeptAround(c, at, f, c1, at1, c2, at2, isNew);
    forall h, j: nat, b | At(s, t, h, j, Sub(b)) && b != n ensures Same(s, at, s', b) {
      BesidesKept(c, at, f, c1, at1, c2, at2, isNew, h, j, b);
    }
    assert ChangedAt(s, c.next, at, s', c3.next, at2, t, k, n);
    assert forall h, j: nat {:trigger At(s, t, h, j, Sub(n))} :: At(s, t, h, j, Sub(n)) ==> h == k;
    ReadChanged(s, c.next, at, s', c3.next, at2, t, k, n);
    var J := if s'[t][k].Many? then |s'[t][k].es| - 1 else 0;
    assert At(s', t, k, J, Sub(n));
    assert ReadElem(s', c3.next, at2, t, k, J) == Read(s', c3.next, at2, n);
    assert Read(s', c3.next, at2, n) == PyDict(d);
    if f.rule.Repeated? {
      ReadAppended(s, c.next, at, s', c3.next, at2, t, k, n, Sub(n));
    }
  }

  /** Popping the nested dict: the dict around it has been changed by nothing but its announcement, and what is
      outside that dict by nothing at all. */
  lemma KeptAround(c: Context, at: Locs, f: Field, c1: Context, at1: Locs, c2: Context, at2: Locs, isNew: bool)
    requires c.Valid() && Tree(c.store, c.next, at) && Tree(c1.store, c1.next, at1) && c.next <= c1.next && c1.Valid()
    requires Kept(c1, at1, c2, at2, c1.Top()) && SameLocs(at, at1, c.next)
    requires var t := c.Top();
             if isNew then c1.Top() == c.next && c1.store == c.store[c.next := map[]][t := Put1(c.store[t], f, Sub(c.next))]
             else c1.store == c.store && at1 == at && At(c.store, t, f.name, 0, Sub(c1.Top()))
    ensures c.Top() < c1.Top() && c.Top() in c2.store && c2.store[c.Top()] == c1.store[c.Top()]
    ensures Kept(c, at, c2.(stack := c.stack), at2, c.Top())
  {
    hide Put1;
    var t, n := c.Top(), c1.Top();
    var s, s' := c.store, c2.store;
    assert t < n && t in c1.store;
    assert !Under(at1, t, n) by { if Under(at1, t, n) { UnderOrdered(at1, t, n); } }
    assert s'[t] == c1.store[t];
    forall y | y in s ensures y in s' && (!Under(at, y, t) ==> s'[y] == s[y]) {
      assert y in c1.store;
      if !Under(at, y, t) { OutsideKept(c, at, f, c1, at1, c2, at2, isNew, y); }
    }
    SameLocsThen(at, at1, at2, c.next);
  }

  lemma SameLocsThen(a: Locs, b: Locs, c: Locs, n: nat)
    requires SameLocs(a, b, n) && SameLocs(b, c, n)
    ensures SameLocs(a, c, n)
  {
  }

  /** Nothing outside the dict around the nested one has changed. */
  lemma OutsideKept(c: Context, at: Locs, f: Field, c1: Context, at1: Locs, c2: Context, at2: Locs, isNew: bool, y: nat)
    requires c.Valid() && Tree(c.store, c.next, at) && c.next <= c1.next && c1.Valid()
    requires Kept(c1, at1, c2, at2, c1.Top()) && SameLocs(at, at1, c.next)
    requires var t := c.Top();
             if isNew then c1.Top() == c.next && c1.store == c.store[c.next := map[]][t := Put1(c.store[t], f, Sub(c.next))]
             else c1.store == c.store && at1 == at && At(c.store, t, f.name, 0, Sub(c1.Top()))
    requires y in c.store && !Under(at, y, c.Top())
    ensures y in c2.store && c2.store[y] == c.store[y]
  {
    var t, n := c.Top(), c1.Top();
    assert Under(at, t, t) && y in c1.store && c1.store[y] == c.store[y];
    if Under(at1, y, n) {
      if isNew {
        UnderOrdered(at1, y, n);
      } else {
        assert at[n].p == t;
        UnderTransitive(at, y, n, t);
      }
    }
  }

  /** Nothing inside the other dicts of the dict around the nested one has changed. */
  lemma BesidesKept(c: Context, at: Locs, f: Field, c1: Context, at1: Locs, c2: Context, at2: Locs, isNew: bool,
                    h: string, j: nat, b: nat)
    requires c.Valid() && Tree(c.store, c.next, at) && c.next <= c1.next && c1.Valid()
    requires Kept(c1, at1, c2, at2, c1.Top()) && SameLocs(at, at1, c.next)
    requires var t := c.Top();
             if isNew then c1.Top() == c.next && c1.store == c.store[c.next := map[]][t := Put1(c.store[t], f, Sub(c.next))]
             else c1.store == c.store && at1 == at && At(c.store, t, f.name, 0, Sub(c1.Top()))
    requires At(c.store, c.Top(), h, j, Sub(b)) && b != c1.Top()
    ensures Same(c.store, at, c2.store, b)
  {
    var t, n, s := c.Top(), c1.Top(), c.store;
    forall y | y in s && Under(at, y, b) ensures y in c2.store && c2.store[y] == s[y] {
      UnderOrdered(at, y, b);
      assert y in c1.store && c1.store[y] == s[y];
      if Under(at1, y, n) {
        if isNew {
          UnderOrdered(at1, y, n);
        } else {
          Siblings(at, y, b, n);
        }
      }
    }
  }

  // ---- whole messages ----

  /** Field names are distinct within each message. */
  ghost predicate NamesOk(descs: Descs) {
    forall m, i: nat, j: nat {:trigger FieldsOf(descs, m)[i], FieldsOf(descs, m)[j]} ::
      i < j < |FieldsOf(descs, m)| ==> FieldsOf(descs, m)[i].name != FieldsOf(descs, m)[j].name
  }

  lemma NameUnique(descs: Descs, m: nat, f: Field, g: Field)
    requires NamesOk(descs) && f in FieldsOf(descs, m) && g in FieldsOf(descs, m) && f.name == g.name
    ensures f == g
  {
    var i: nat :| i < |FieldsOf(descs, m)| && FieldsOf(descs, m)[i] == f;
    var j: nat :| j < |FieldsOf(descs, m)| && FieldsOf(descs, m)[j] == g;
  }

  /** Every entry is of the kind its field calls for, down through the messages that are merged into. */
  ghost predicate Kinded(descs: Descs, m: nat, x: PyObj)
    decreases x
  {
    x.PyDict? && forall f {:trigger f in FieldsOf(descs, m)} :: f in FieldsOf(descs, m) && f.name in x.d ==>
      if f.rule.Repeated? then x.d[f.name].PyList? else f.typ.Message? ==> Kinded(descs, f.msg, x.d[f.name])
  }

  /** What is read of a well-kinded entry. */
  lemma KindsRead(descs: Descs, m: nat, c: Context, at: Locs, f: Field)
    requires c.Valid() && Tree(c.store, c.next, at) && f in FieldsOf(descs, m)
    requires Kinded(descs, m, Read(c.store, c.next, at, c.Top()))
    ensures KindOk(c.store[c.Top()], f)
    ensures f.typ.Message? && !f.rule.Repeated? && f.name in c.store[c.Top()] ==>
              var n := c.store[c.Top()][f.name].e.a;
              && At(c.store, c.Top(), f.name, 0, Sub(n)) && n in c.store
              && Read(c.store, c.next, at, c.Top()).d[f.name] == Read(c.store, c.next, at, n)
  {
    var t, cell := c.Top(), c.store[c.Top()];
    if f.name in cell {
      assert Read(c.store, c.next, at, t).d[f.name] == ReadEntry(c.store, c.next, at, t, f.name);
      if cell[f.name].One? { ElemKind(c.store, c.next, at, t, f.name); }
      if f.typ.Message? && !f.rule.Repeated? {
        assert At(c.store, t, f.name, 0, cell[f.name].e);
      }
    }
  }

  lemma ElemKind(s: Store, next: nat, at: Locs, a: nat, k: string)
    requires Tree(s, next, at) && a in s && k in s[a] && s[a][k].One?
    ensures var x := ReadEntry(s, next, at, a, k);
            if s[a][k].e.Leaf? then x.PyScalar? else x.PyDict?
  {
    if s[a][k].e.Sub? {
      assert At(s, a, k, 0, s[a][k].e);
      assert Read(s, next, at, s[a][k].e.a).PyDict?;
    }
  }

  lemma {:induction false} MergeKinded(descs: Descs, m: nat, d: map<string, PyObj>, items: seq<Item>)
    requires NamesOk(descs) && Kinded(descs, m, PyDict(d)) && Typed(items) && Declared(descs, m, items)
    ensures Kinded(descs, m, PyDict(Merge(d, items)))
    decreases items, 1
  {
    if items != [] {
      MergeItemKinded(descs, m, d, items[0]);
      MergeKinded(descs, m, MergeItem(d, items[0]), items[1..]);
    }
  }

  lemma {:induction false} MergeItemKinded(descs: Descs, m: nat, d: map<string, PyObj>, it: Item)
    requires NamesOk(descs) && Kinded(descs, m, PyDict(d)) && TypedItem(it) && DeclaredItem(descs, m, it)
    ensures Kinded(descs, m, PyDict(MergeItem(d, it)))
    decreases it, 0
  {
    match it
    case Single(f, v) => AssignKinded(descs, m, d, f, PyScalar(v));
    case Packed(f, vs) => AssignAllKinded(descs, m, d, f, vs);
    case Nested(f, body) =>
      var inner := if f.rule.Repeated? then map[] else DictAt(d, f.name);
      MergeKinded(descs, f.msg, inner, body);
      AssignKinded(descs, m, d, f, PyDict(Merge(inner, body)));
  }

  lemma AssignKinded(descs: Descs, m: nat, d: map<string, PyObj>, f: Field, x: PyObj)
    requires NamesOk(descs) && Kinded(descs, m, PyDict(d)) && f in FieldsOf(descs, m)
    requires f.typ.Message? && !f.rule.Repeated? ==> Kinded(descs, f.msg, x)
    ensures Kinded(descs, m, PyDict(Assign(d, f, x)))
  {
    forall g | g in FieldsOf(descs, m) && g.name == f.name ensures g == f {
      NameUnique(descs, m, f, g);
    }
  }

  lemma {:induction false} AssignAllKinded(descs: Descs, m: nat, d: map<string, PyObj>, f: Field, vs: seq<Value>)
    requires NamesOk(descs) && Kinded(descs, m, PyDict(d)) && f in FieldsOf(descs, m) && f.rule.Repeated?
    ensures Kinded(descs, m, PyDict(AssignAll(d, f, vs)))
    decreases |vs|
  {
    if vs != [] {
      AssignKinded(descs, m, d, f, PyScalar(vs[0]));
      AssignAllKinded(descs, m, Assign(d, f, PyScalar(vs[0])), f, vs[1..]);
    }
  }

  /** Handling the events of a message merges it into the innermost dict, in place, and touches nothing else. */
  lemma {:induction false} Fill(descs: Descs, root: nat, m: nat, depth: nat, items: seq<Item>, c: Context, at: Locs)
    returns (at': Locs)
    requires NamesOk(descs) && Typed(items) && Declared(descs, m, items)
    requires c.Valid() && Tree(c.store, c.next, at) && Kinded(descs, m, Read(c.store, c.next, at, c.Top()))
    ensures Filled(c, at, Handle(c, Events(root, m, depth, items)), at',
                   Merge(Read(c.store, c.next, at, c.Top()).d, items))
    decreases items, 2
  {
    hide Tree, Kept, ItemEvents, MergeItem, Kinded, TypedItem, DeclaredItem;
    at' := at;
    if items == [] {
      KeptNothing(c, at);
    } else {
      var it, rest := items[0], items[1..];
      var d := Read(c.store, c.next, at, c.Top()).d;
      var at1 := FillItem(descs, root, m, depth, it, c, at);
      var c1 := Handle(c, ItemEvents(root, m, depth, it));
      MergeItemKinded(descs, m, d, it);
      HandleConcat(c, ItemEvents(root, m, depth, it), Events(root, m, depth, rest));
      at' := Fill(descs, root, m, depth, rest, c1, at1);
      FilledThen(c, at, c1, at1, Handle(c1, Events(root, m, depth, rest)), at', MergeItem(d, it), Merge(MergeItem(d, it), rest));
    }
  }

  lemma {:induction false} FillItem(descs: Descs, root: nat, m: nat, depth: nat, it: Item, c: Context, at: Locs)
    returns (at': Locs)
    requires NamesOk(descs) && TypedItem(it) && DeclaredItem(descs, m, it)
    requires c.Valid() && Tree(c.store, c.next, at) && Kinded(descs, m, Read(c.store, c.next, at, c.Top()))
    ensures Filled(c, at, Handle(c, ItemEvents(root, m, depth, it)), at',
                   MergeItem(Read(c.store, c.next, at, c.Top()).d, it))
    decreases it, 1
  {
    hide Tree, Kept, Kinded, OnField;
    KindsRead(descs, m, c, at, it.f);
    at' := at;
    match it
    case Single(f, v) =>
      ValueFilled(c, at, f, v);
      HandleOne(c, FieldEvent(m, f, Some(v)));
    case Packed(f, vs) =>
      ValuesFilled(c, at, m, f, vs);
      var end := MsgEnd(m, depth + 1, true);
      HandleConcat(c, ElementEvents(m, f, vs), [end]);
      HandleOne(Handle(c, ElementEvents(m, f, vs)), end);
      HandleConcat(c, [MsgStart(m, depth + 1, true)], ElementEvents(m, f, vs) + [end]);
      HandleOne(c, MsgStart(m, depth + 1, true));
    case Nested(f, body) =>
      at' := FillNested(descs, root, m, depth, f, body, c, at);
  }

  lemma {:induction false} FillNested(descs: Descs, root: nat, m: nat, depth: nat, f: Field, body: seq<Item>, c: Context, at: Locs)
    returns (at': Locs)
    requires NamesOk(descs) && TypedItem(Nested(f, body)) && DeclaredItem(descs, m, Nested(f, body))
    requires c.Valid() && Tree(c.store, c.next, at) && Kinded(descs, m, Read(c.store, c.next, at, c.Top()))
    ensures Filled(c, at, Handle(c, ItemEvents(root, m, depth, Nested(f, body))), at',
                   MergeItem(Read(c.store, c.next, at, c.Top()).d, Nested(f, body)))
    decreases body, 3
  {
    hide Tree, Kept, Put1, Read;
    KindsRead(descs, m, c, at, f);
    var isNew := f.rule.Repeated? || f.name !in c.store[c.Top()];
    var c1 := OnField(c, f, None);
    var at1 := at;
    if isNew {
      at1 := OpenFresh(c, at, f);
    } else {
      SameLocsRefl(at, c.next);
    }
    var inner := if f.rule.Repeated? then map[] else DictAt(Read(c.store, c.next, at, c.Top()).d, f.name);
    assert Read(c1.store, c1.next, at1, c1.Top()) == PyDict(inner) by {
      ReadIsDict(c, at, f);
    }
    hide OnField;
    at' := Fill(descs, root, f.msg, depth + 1, body, c1, at1);
    var c2 := Handle(c1, Events(root, f.msg, depth + 1, body));
    CloseFilled(c, at, f, c1, at1, c2, at', Merge(inner, body), isNew);
    NestedEvents(root, m, depth, f, body, c, c1, c2);
  }

  lemma SameLocsRefl(at: Locs, n: nat)
    ensures SameLocs(at, at, n)
  {
  }

  /** A name is in the dict read exactly when it is in the store's. */
  lemma ReadIsDict(c: Context, at: Locs, f: Field)
    requires c.Valid() && Tree(c.store, c.next, at)
    ensures var x := Read(c.store, c.next, at, c.Top()); x.PyDict? && (f.name in x.d <==> f.name in c.store[c.Top()])
    ensures forall a {:trigger Read(c.store, c.next, at, a)} :: a in c.store ==> Read(c.store, c.next, at, a).PyDict?
  {
  }

  lemma NestedEvents(root: nat, m: nat, depth: nat, f: Field, body: seq<Item>, c: Context, c1: Context, c2: Context)
    requires c.Valid() && c1 == OnField(c, f, None) && c1.stack == c.stack + [c1.Top()]
    requires c2 == Handle(c1, Events(root, f.msg, depth + 1, body)) && c2.stack == c1.stack
    ensures Handle(c, ItemEvents(root, m, depth, Nested(f, body))) == c2.(stack := c.stack)
  {
    hide OnField;
    var e, start, end := FieldEvent(root, f, None), MsgStart(f.msg, depth + 1, false), MsgEnd(f.msg, depth + 1, false);
    var es := Events(root, f.msg, depth + 1, body);
    HandleConcat(c, [e], [start] + (es + [end]));
    HandleOne(c, e);
    HandleConcat(c1, [start], es + [end]);
    HandleOne(c1, start);
    HandleConcat(c1, es, [end]);
    HandleOne(c2, end);
    assert c2.stack[..|c2.stack| - 1] == c.stack;
  }

  // ---- dicts that come back as they were ----

  /** The dicts decoding can produce: only declared names, repeated fields as non-empty lists. */
  ghost predicate Normal(descs: Descs, m: nat, x: PyObj)
    decreases x, 1
  {
    && x.PyDict?
    && (forall k {:trigger k in x.d} :: k in x.d ==> exists f :: f in FieldsOf(descs, m) && f.name == k)
    && (forall f {:trigger f in FieldsOf(descs, m)} :: f in FieldsOf(descs, m) && f.name in x.d ==>
          NormalAt(descs, f, x.d[f.name]))
  }

  ghost predicate NormalAt(descs: Descs, f: Field, x: PyObj)
    decreases x, 2
  {
    && (f.rule.Repeated? <==> x.PyList?)
    && Count(x) > 0
    && (IsPackedRepeated(f) ==> PackedField(f))
    && forall j {:trigger Element(x, j)} :: 0 <= j < Count(x) ==>
         if f.typ.Message? then Normal(descs, f.msg, Element(x, j))
         else Element(x, j).PyScalar? && Scalars.Fits(f.typ, Element(x, j).v)
  }

  lemma {:induction false} NormalEncodable(descs: Descs, m: nat, x: PyObj)
    requires Normal(descs, m, x)
    ensures Encodable(descs, m, x)
    decreases x, 1
  {
    forall f | f in FieldsOf(descs, m) && f.name in x.d ensures Suits(descs, f, x.d[f.name]) {
      NormalSuits(descs, f, x.d[f.name]);
    }
  }

  lemma {:induction false} NormalSuits(descs: Descs, f: Field, x: PyObj)
    requires NormalAt(descs, f, x)
    ensures Suits(descs, f, x)
    decreases x, 2
  {
    forall j | 0 <= j < Count(x)
      ensures if f.typ.Message? then Encodable(descs, f.msg, Element(x, j))
              else Element(x, j).PyScalar? && Scalars.Fits(f.typ, Element(x, j).v)
    {
      if f.typ.Message? { NormalEncodable(descs, f.msg, Element(x, j)); }
    }
  }

  /** The entries of the first `i` declared fields. */
  ghost function FirstFields(descs: Descs, m: nat, d: map<string, PyObj>, i: nat): map<string, PyObj>
    requires i <= |FieldsOf(descs, m)|
  {
    map k | k in d && (exists j: nat :: j < i && FieldsOf(descs, m)[j].name == k) :: d[k]
  }

  /** Merging the tree of a normal dict into an empty one gives it back. */
  lemma {:induction false} MergeItemsOf(descs: Descs, m: nat, x: PyObj)
    requires NamesOk(descs) && Normal(descs, m, x)
    ensures Encodable(descs, m, x) && Merge(map[], ItemsOf(descs, m, x)) == x.d
    decreases x, 3
  {
    var n := |FieldsOf(descs, m)|;
    MergeFields(descs, m, x, n);
    forall k | k in x.d ensures k in FirstFields(descs, m, x.d, n) {
      var f :| f in FieldsOf(descs, m) && f.name == k;
      var j: nat :| j < n && FieldsOf(descs, m)[j] == f;
      assert FieldsOf(descs, m)[j].name == k;
    }
  }

  lemma {:induction false} MergeFields(descs: Descs, m: nat, x: PyObj, i: nat)
    requires NamesOk(descs) && Normal(descs, m, x) && i <= |FieldsOf(descs, m)|
    ensures Encodable(descs, m, x)
    ensures Merge(map[], FieldsItems(descs, m, x, i)) == FirstFields(descs, m, x.d, i)
    decreases x, 2, i
  {
    NormalEncodable(descs, m, x);
    if i > 0 {
      hide MergeItem, Normal, Encodable;
      var f := FieldsOf(descs, m)[i - 1];
      MergeFields(descs, m, x, i - 1);
      FirstFieldsStep(descs, m, x.d, i);
      if f.name in x.d {
        NormalField(descs, m, x, f);
        MergeConcat(map[], FieldsItems(descs, m, x, i - 1), FieldItems(descs, f, x.d[f.name]));
        MergeField(descs, FirstFields(descs, m, x.d, i - 1), f, x.d[f.name]);
      }
    }
  }

  lemma NormalField(descs: Descs, m: nat, x: PyObj, f: Field)
    requires Normal(descs, m, x) && f in FieldsOf(descs, m) && f.name in x.d
    ensures NormalAt(descs, f, x.d[f.name]) && Suits(descs, f, x.d[f.name])
  {
    NormalSuits(descs, f, x.d[f.name]);
  }

  lemma FirstFieldsStep(descs: Descs, m: nat, d: map<string, PyObj>, i: nat)
    requires NamesOk(descs) && 0 < i <= |FieldsOf(descs, m)|
    ensures var k := FieldsOf(descs, m)[i - 1].name;
            && k !in FirstFields(descs, m, d, i - 1)
            && FirstFields(descs, m, d, i) == if k in d then FirstFields(descs, m, d, i - 1)[k := d[k]]
                                              else FirstFields(descs, m, d, i - 1)
  {
    var k := FieldsOf(descs, m)[i - 1].name;
    forall h | h in d && (exists j: nat :: j < i && FieldsOf(descs, m)[j].name == h) && h != k
      ensures exists j: nat :: j < i - 1 && FieldsOf(descs, m)[j].name == h
    {
      var j: nat :| j < i && FieldsOf(descs, m)[j].name == h;
      assert j < i - 1;
    }
  }

  /** A field that is not there yet gets exactly its value. */
  lemma {:induction false} MergeField(descs: Descs, e: map<string, PyObj>, f: Field, x: PyObj)
    requires NamesOk(descs) && NormalAt(descs, f, x) && Suits(descs, f, x) && f.name !in e
    ensures Merge(e, FieldItems(descs, f, x)) == e[f.name := x]
    decreases x, 5
  {
    if IsPackedRepeated(f) {
      var vs := PackedValues(descs, f, x, |x.xs|);
      MergeOne(e, Packed(f, vs));
      AssignAllAppends(e, f, vs);
      PackedAreElements(descs, f, x, |x.xs|);
      assert [] + Wrapped(vs) == x.xs;
    } else {
      MergeValues(descs, e, f, x, Count(x));
      if x.PyList? { assert x.xs[..|x.xs|] == x.xs; }
    }
  }

  lemma MergeOne(e: map<string, PyObj>, it: Item)
    ensures Merge(e, [it]) == MergeItem(e, it)
  {
    hide MergeItem;
    assert [it][0] == it && [it][1..] == [];
  }

  function Wrapped(vs: seq<Value>): (xs: seq<PyObj>) {
    seq(|vs|, i requires 0 <= i < |vs| => PyScalar(vs[i]))
  }

  lemma {:induction false} AssignAllAppends(d: map<string, PyObj>, f: Field, vs: seq<Value>)
    requires f.rule.Repeated?
    ensures AssignAll(d, f, vs) == if vs == [] then d else d[f.name := PyList(ListAt(d, f.name) + Wrapped(vs))]
    decreases |vs|
  {
    if vs != [] {
      var d1 := Assign(d, f, PyScalar(vs[0]));
      AssignAllAppends(d1, f, vs[1..]);
      var xs := ListAt(d, f.name);
      assert ListAt(d1, f.name) == xs + [PyScalar(vs[0])];
      assert xs + [PyScalar(vs[0])] + Wrapped(vs[1..]) == xs + Wrapped(vs);
      var all := PyList(xs + Wrapped(vs));
      if vs[1..] == [] {
        assert Wrapped(vs) == [PyScalar(vs[0])];
      } else {
        assert d1[f.name := all] == d[f.name := all];
      }
    }
  }

  lemma {:induction false} PackedAreElements(descs: Descs, f: Field, x: PyObj, n: nat)
    requires Suits(descs, f, x) && PackedField(f) && x.PyList? && n <= |x.xs|
    ensures Wrapped(PackedValues(descs, f, x, n)) == x.xs[..n]
    decreases n
  {
    if n > 0 {
      PackedAreElements(descs, f, x, n - 1);
      var before, v := PackedValues(descs, f, x, n - 1), Element(x, n - 1).v;
      assert Wrapped(before + [v]) == Wrapped(before) + [PyScalar(v)];
      assert x.xs[..n] == x.xs[..n - 1] + [x.xs[n - 1]];
    }
  }

  lemma {:induction false} MergeValues(descs: Descs, e: map<string, PyObj>, f: Field, x: PyObj, n: nat)
    requires NamesOk(descs) && NormalAt(descs, f, x) && Suits(descs, f, x) && f.name !in e
    requires !IsPackedRepeated(f) && n <= Count(x)
    ensures Merge(e, ValueItems(descs, f, x, n))
            == if n == 0 then e else if x.PyList? then e[f.name := PyList(x.xs[..n])] else e[f.name := x]
    decreases x, 4, n
  {
    if n > 0 {
      hide Merge, Normal, NormalAt, Encodable, Suits, NamesOk, ValueItems;
      MergeValues(descs, e, f, x, n - 1);
      MergeLastValue(descs, e, f, x, n);
      if x.PyList? {
        ListGrows(e, f, x.xs, n);
      }
    }
  }

  /** One more element of a list. */
  lemma ListGrows(e: map<string, PyObj>, f: Field, xs: seq<PyObj>, n: nat)
    requires f.rule.Repeated? && f.name !in e && 0 < n <= |xs|
    ensures Assign(if n == 1 then e else e[f.name := PyList(xs[..n - 1])], f, xs[n - 1])
            == e[f.name := PyList(xs[..n])]
  {
    assert xs[..n] == xs[..n - 1] + [xs[n - 1]];
    if n == 1 {
      assert ListAt(e, f.name) + [xs[0]] == xs[..1];
    } else {
      var e1 := e[f.name := PyList(xs[..n - 1])];
      assert ListAt(e1, f.name) == xs[..n - 1];
      assert e1[f.name := PyList(xs[..n])] == e[f.name := PyList(xs[..n])];
    }
  }

  lemma {:induction false} MergeLastValue(descs: Descs, e: map<string, PyObj>, f: Field, x: PyObj, n: nat)
    requires NamesOk(descs) && NormalAt(descs, f, x) && Suits(descs, f, x) && f.name !in e
    requires !IsPackedRepeated(f) && 0 < n <= Count(x)
    ensures Merge(e, ValueItems(descs, f, x, n)) == Assign(Merge(e, ValueItems(descs, f, x, n - 1)), f, Element(x, n - 1))
    decreases x, 4, n, 0
  {
    hide Merge, MergeItem, Normal, Encodable;
    var before, v := ValueItems(descs, f, x, n - 1), Element(x, n - 1);
    var it := ValueItems(descs, f, x, n)[n - 1];
    assert ValueItems(descs, f, x, n) == before + [it];
    MergeConcat(e, before, [it]);
    var e1 := Merge(e, before);
    MergeOne(e1, it);
    if !f.rule.Repeated? {
      assert before == [];
      MergeNothing(e);
    }
    if f.typ.Message? {
      MergeItemsOf(descs, f.msg, v);
      MergeNestedValue(e1, f, ItemsOf(descs, f.msg, v), v);
    } else {
      MergeSingle(e1, f, v.v);
    }
  }

  lemma MergeNothing(e: map<string, PyObj>)
    ensures Merge(e, []) == e
  {
  }

  lemma MergeNestedValue(e: map<string, PyObj>, f: Field, body: seq<Item>, v: PyObj)
    requires v.PyDict? && Merge(map[], body) == v.d && (f.rule.Repeated? || f.name !in e)
    ensures MergeItem(e, Nested(f, body)) == Assign(e, f, v)
  {
    hide Merge;
  }

  lemma MergeSingle(e: map<string, PyObj>, f: Field, v: Value)
    ensures MergeItem(e, Single(f, v)) == Assign(e, f, PyScalar(v))
  {
  }

  // ---- the whole way ----

  /** The context decoding starts with: an empty dict at address 0. */
  function Fresh(): Context {
    Context(map[0 := map[]], 1, [0])
  }

  /** Handling the events of any tree leaves an empty context stack and, at the root, an empty dict with the tree
      merged into it. */
  lemma TreeMerges(descs: Descs, m: nat, items: seq<Item>) returns (at: Locs)
    requires NamesOk(descs) && Typed(items) && Declared(descs, m, items)
    ensures var c := Handle(Fresh(), MessageEvents(m, items));
            && c.stack == [] && Tree(c.store, c.next, at) && 0 in c.store
            && Read(c.store, c.next, at, 0) == PyDict(Merge(map[], items))
  {
    hide Merge;
    var c := Fresh();
    assert Tree(c.store, c.next, map[]);
    assert Read(c.store, c.next, map[], 0) == PyDict(map[]);
    at := Fill(descs, m, m, 1, items, c, map[]);
    var c1 := Handle(c, Events(m, m, 1, items));
    HandleConcat(c, [MsgStart(m, 1, false)], Events(m, m, 1, items) + [MsgEnd(m, 1, false)]);
    HandleOne(c, MsgStart(m, 1, false));
    HandleConcat(c, Events(m, m, 1, items), [MsgEnd(m, 1, false)]);
    HandleOne(c1, MsgEnd(m, 1, false));
    assert Read(c1.store, c1.next, at, 0).PyDict?;
  }

  /** Decoding the encoding of any well-typed tree leaves the tree, merged into an empty dict. */
  lemma DecodeMerges(descs: Descs, m: nat, items: seq<Item>) returns (at: Locs)
    requires NumbersOk(descs) && NamesOk(descs) && Shaped(items) && Declared(descs, m, items)
    requires Height(items) < MAX_DEPTH && |Enc(items)| < Wire.TWO64
    ensures var c := Handle(Fresh(), Parse(descs, m, Enc(items), true).events);
            && c.stack == [] && Tree(c.store, c.next, at) && 0 in c.store
            && Read(c.store, c.next, at, 0) == PyDict(Merge(map[], items))
  {
    hide *;
    MessageRoundTrip(descs, m, items, true);
    ShapedTyped(items);
    at := TreeMerges(descs, m, items);
  }

  /** An element of a field's value in a normal dict. */
  ghost predicate NormalElement(descs: Descs, f: Field, x: PyObj) {
    if f.typ.Message? then Normal(descs, f.msg, x) else x.PyScalar? && Scalars.Fits(f.typ, x.v)
  }

  lemma AssignNormal(descs: Descs, m: nat, d: map<string, PyObj>, f: Field, x: PyObj)
    requires NamesOk(descs) && Normal(descs, m, PyDict(d)) && f in FieldsOf(descs, m) && NormalElement(descs, f, x)
    requires !x.PyList? && (IsPackedRepeated(f) ==> PackedField(f))
    ensures Normal(descs, m, PyDict(Assign(d, f, x)))
  {
    var y := Assign(d, f, x);
    assert NormalAt(descs, f, y[f.name]) by {
      if f.name in d { assert NormalAt(descs, f, d[f.name]); }
      if f.rule.Repeated? {
        var xs := ListAt(d, f.name);
        forall j | 0 <= j < |xs| + 1 ensures NormalElement(descs, f, (xs + [x])[j]) {
          if j < |xs| { assert Element(d[f.name], j) == xs[j]; }
        }
      }
    }
    forall g | g in FieldsOf(descs, m) && g.name in y ensures NormalAt(descs, g, y[g.name]) {
      if g.name == f.name { NameUnique(descs, m, f, g); }
    }
  }

  lemma {:induction false} AssignAllNormal(descs: Descs, m: nat, d: map<string, PyObj>, f: Field, vs: seq<Value>)
    requires NamesOk(descs) && Normal(descs, m, PyDict(d)) && f in FieldsOf(descs, m)
    requires PackedField(f) && FitAll(f.typ, vs)
    ensures Normal(descs, m, PyDict(AssignAll(d, f, vs)))
    decreases |vs|
  {
    if vs != [] {
      hide Normal;
      AssignNormal(descs, m, d, f, PyScalar(vs[0]));
      AssignAllNormal(descs, m, Assign(d, f, PyScalar(vs[0])), f, vs[1..]);
    }
  }

  /** Whatever is decoded into a normal dict leaves it normal. */
  lemma {:induction false} MergeNormal(descs: Descs, m: nat, d: map<string, PyObj>, items: seq<Item>)
    requires NamesOk(descs) && Normal(descs, m, PyDict(d)) && Typed(items) && Declared(descs, m, items)
    ensures Normal(descs, m, PyDict(Merge(d, items)))
    decreases items, 1
  {
    hide Normal, MergeItem;
    if items != [] {
      MergeItemNormal(descs, m, d, items[0]);
      MergeNormal(descs, m, MergeItem(d, items[0]), items[1..]);
    }
  }

  lemma {:induction false} MergeItemNormal(descs: Descs, m: nat, d: map<string, PyObj>, it: Item)
    requires NamesOk(descs) && Normal(descs, m, PyDict(d)) && TypedItem(it) && DeclaredItem(descs, m, it)
    ensures Normal(descs, m, PyDict(MergeItem(d, it)))
    decreases it, 0
  {
    NothingNormal(descs, it.f.msg);
    if it.Nested? && !it.f.rule.Repeated? { DictAtNormal(descs, m, d, it.f); }
    hide Normal;
    match it
    case Single(f, v) => AssignNormal(descs, m, d, f, PyScalar(v));
    case Packed(f, vs) => if vs != [] { AssignAllNormal(descs, m, d, f, vs); }
    case Nested(f, body) =>
      var inner := if f.rule.Repeated? then map[] else DictAt(d, f.name);
      MergeNormal(descs, f.msg, inner, body);
      AssignNormal(descs, m, d, f, PyDict(Merge(inner, body)));
  }

  lemma NothingNormal(descs: Descs, m: nat)
    ensures Normal(descs, m, PyDict(map[]))
  {
  }

  lemma DictAtNormal(descs: Descs, m: nat, d: map<string, PyObj>, f: Field)
    requires Normal(descs, m, PyDict(d)) && f in FieldsOf(descs, m) && f.typ.Message? && !f.rule.Repeated?
    ensures Normal(descs, f.msg, PyDict(DictAt(d, f.name)))
  {
    if f.name in d {
      assert NormalAt(descs, f, d[f.name]);
      assert Element(d[f.name], 0) == d[f.name];
    }
  }

  /** An object that can be encoded comes back from its encoding as it was exactly when it is a normal dict. */
  lemma DictRoundTrip(descs: Descs, m: nat, x: PyObj) returns (at: Locs)
    requires NumbersOk(descs) && NamesOk(descs) && Encodable(descs, m, x)
    requires Height(ItemsOf(descs, m, x)) < MAX_DEPTH && |Enc(ItemsOf(descs, m, x))| < Wire.TWO64
    ensures var c := Handle(Fresh(), Parse(descs, m, Enc(ItemsOf(descs, m, x)), true).events);
            && c.stack == [] && Tree(c.store, c.next, at) && 0 in c.store
            && (Read(c.store, c.next, at, 0) == x <==> Normal(descs, m, x))
  {
    hide Normal, Encodable, Handle, Parse, Read, Tree, Merge, Enc, ItemsOf;
    var items := ItemsOf(descs, m, x);
    ItemsDeclared(descs, m, x, |FieldsOf(descs, m)|);
    ItemsAll(descs, m, x);
    at := DecodeMerges(descs, m, items);
    NothingNormal(descs, m);
    ShapedTyped(items);
    MergeNormal(descs, m, map[], items);
    if Normal(descs, m, x) { MergeItemsOf(descs, m, x); }
  }

  lemma ItemsAll(descs: Descs, m: nat, x: PyObj)
    requires Encodable(descs, m, x)
    ensures x.PyDict? && ItemsOf(descs, m, x) == FieldsItems(descs, m, x, |FieldsOf(descs, m)|)
  {
  }
}
