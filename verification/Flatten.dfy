/** Flat records (python/flat.py): nested dicts and lists as one dict of dotted paths, and back. */
module Flatten {
  import opened Schema

  /** Python objects: None, other scalars, lists and dicts. */
  datatype Tree = Nil | Leaf(v: int) | List(xs: seq<Tree>) | Dict(d: map<string, Tree>)

  datatype Part = Key(k: string) | Idx(i: nat)
  type Path = seq<Part>

  // ---- what is where ----

  /** The scalar at a path, if there is one. */
  function LeafAt(t: Tree, path: Path): (r: Option<Tree>)
    ensures r.Some? ==> r.value.Leaf?
    decreases path
  {
    if path == [] then if t.Leaf? then Some(t) else None
    else match path[0]
      case Key(k) => if t.Dict? && k in t.d then LeafAt(t.d[k], path[1..]) else None
      case Idx(i) => if t.List? && i < |t.xs| then LeafAt(t.xs[i], path[1..]) else None
  }

  /** No container is empty and no scalar is None. */
  ghost predicate Full(t: Tree) {
    match t
    case Nil => false
    case Leaf(_) => true
    case List(xs) => xs != [] && forall i {:trigger xs[i]} :: 0 <= i < |xs| ==> Full(xs[i])
    case Dict(d) => d != map[] && forall k {:trigger d[k]} :: k in d ==> Full(d[k])
  }

  ghost predicate AtMostOneLeaf(t: Tree) {
    forall p, q {:trigger LeafAt(t, p), LeafAt(t, q)} :: LeafAt(t, p).Some? && LeafAt(t, q).Some? ==> p == q
  }

  /** No list element has more than one scalar in it. */
  ghost predicate SingleElements(t: Tree) {
    match t
    case Nil => true
    case Leaf(_) => true
    case List(xs) => forall i {:trigger xs[i]} :: 0 <= i < |xs| ==> AtMostOneLeaf(xs[i])
    case Dict(d) => forall k {:trigger d[k]} :: k in d ==> SingleElements(d[k])
  }

  // ---- building a tree, path by path ----

  /** The container made for the next part of a path. */
  function Default(path: Path): Tree
    requires path != []
  {
    if path[0].Idx? then List([]) else Dict(map[])
  }

  function Extend(xs: seq<Tree>, n: nat): (ys: seq<Tree>)
    ensures |ys| == if |xs| < n then n else |xs|
    ensures forall i :: 0 <= i < |ys| ==> ys[i] == if i < |xs| then xs[i] else Nil
  {
    xs + seq(if |xs| < n then n - |xs| else 0, _ => Nil)
  }

  /** Puts a scalar at a path. A list element is always made anew; what is in a dict already is kept. It fails
      where the path does not fit the containers. */
  function Insert(p: Tree, path: Path, v: Tree): (r: Option<Tree>)
    requires path != []
    decreases path
  {
    var part := path[0];
    match part
    case Idx(i) =>
      if !p.List? then None
      else
        var x := if |path| == 1 then Some(v) else Insert(Default(path[1..]), path[1..], v);
        if x.Some? then Some(List(Extend(p.xs, i + 1)[i := x.value])) else None
    case Key(k) =>
      if !p.Dict? then None
      else if |path| == 1 then Some(if k in p.d then p else Dict(p.d[k := v]))
      else
        var x := Insert(if k in p.d then p.d[k] else Default(path[1..]), path[1..], v);
        if x.Some? then Some(Dict(p.d[k := x.value])) else None
  }

  // ---- what one insertion does ----

  /** Setting a list element leaves the others alone; a gap before it is filled with None. */
  lemma ElementSet(xs: seq<Tree>, i: nat, v: Tree)
    ensures var r := Insert(List(xs), [Idx(i)], v);
            && r.Some? && r.value.List? && |r.value.xs| == (if i < |xs| then |xs| else i + 1)
            && forall j :: 0 <= j < |r.value.xs| ==>
                 r.value.xs[j] == if j == i then v else if j < |xs| then xs[j] else Nil
  {
  }

  /** What a list element was before does not matter, however long the path through it is. */
  lemma ElementForgotten(xs: seq<Tree>, path: Path, v: Tree, y: Tree)
    requires path != [] && path[0].Idx? && path[0].i < |xs|
    ensures Insert(List(xs), path, v) == Insert(List(xs[path[0].i := y]), path, v)
  {
    var i := path[0].i;
    hide Insert;
    ListInsert(xs, path, v);
    ListInsert(xs[i := y], path, v);
    if |path| == 1 {
      assert xs[i := v] == xs[i := y][i := v];
    } else {
      var x := Insert(Default(path[1..]), path[1..], v);
      if x.Some? { assert xs[i := x.value] == xs[i := y][i := x.value]; }
    }
  }

  lemma ListInsert(xs: seq<Tree>, path: Path, v: Tree)
    requires path != [] && path[0].Idx? && path[0].i < |xs|
    ensures var x := if |path| == 1 then Some(v) else Insert(Default(path[1..]), path[1..], v);
            Insert(List(xs), path, v) == if x.Some? then Some(List(xs[path[0].i := x.value])) else None
  {
    assert Extend(xs, path[0].i + 1) == xs;
  }

  /** Whether there is something at a path of keys. */
  predicate Present(p: Tree, path: Path)
    decreases path
  {
    path == [] || (path[0].Key? && p.Dict? && path[0].k in p.d && Present(p.d[path[0].k], path[1..]))
  }

  /** What is in a dict already is kept: nothing changes when there is something at the path. */
  lemma {:induction false} KeptWhenPresent(p: Tree, path: Path, v: Tree)
    requires path != [] && Present(p, path)
    ensures Insert(p, path, v) == Some(p)
    decreases path
  {
    var k := path[0].k;
    if |path| > 1 {
      KeptWhenPresent(p.d[k], path[1..], v);
      assert p.d[k := p.d[k]] == p.d;
    }
  }

  /** A key that is new in a dict is added, with a container for the rest of the path, and no other key changes. */
  lemma KeyAdded(d: map<string, Tree>, path: Path, v: Tree)
    requires path != [] && path[0].Key? && path[0].k !in d
    ensures var x := if |path| == 1 then Some(v)
                     else Insert(if path[1].Idx? then List([]) else Dict(map[]), path[1..], v);
            Insert(Dict(d), path, v) == if x.Some? then Some(Dict(d[path[0].k := x.value])) else None
  {
  }

  /** A path leads only through containers that suit it. */
  lemma SuitsContainer(p: Tree, path: Path, v: Tree)
    requires path != []
    ensures Insert(p, path, v).Some? ==> if path[0].Idx? then p.List? else p.Dict?
  {
  }

  datatype Entry = Entry(path: Path, v: Tree)

  function Unflattened(dst: Tree, es: seq<Entry>): (r: Option<Tree>)
    requires forall e :: e in es ==> e.path != []
    decreases |es|
  {
    if es == [] then Some(dst)
    else
      var next := Insert(dst, es[0].path, es[0].v);
      if next.Some? then Unflattened(next.value, es[1..]) else None
  }

  // ---- list elements end up with one scalar ----

  /** A tree made for one path has a scalar there and nowhere else. */
  lemma {:induction false} MadeForOne(path: Path, v: Tree, q: Path)
    requires path != [] && v.Leaf?
    ensures var x := Insert(Default(path), path, v);
            x.Some? && (LeafAt(x.value, q).Some? ==> q == path)
    decreases path
  {
    var x := Insert(Default(path), path, v);
    var y := v;
    if |path| > 1 {
      MadeForOne(path[1..], v, if q == [] then [] else q[1..]);
      y := Insert(Default(path[1..]), path[1..], v).value;
    }
    if LeafAt(x.value, q).Some? {
      NoLeafInNil(q[1..]);
      OneLeafInLeaf(v, q[1..]);
      assert q[0] == path[0] && LeafAt(y, q[1..]).Some?;
      assert q == [q[0]] + q[1..] && path == [path[0]] + path[1..];
    }
  }

  lemma NoLeafInNil(p: Path)
    ensures LeafAt(Nil, p).None?
  {
  }

  lemma OneLeafInLeaf(v: Tree, p: Path)
    requires v.Leaf?
    ensures LeafAt(v, p).Some? <==> p == []
  {
  }

  lemma {:induction false} InsertKeepsSingle(p: Tree, path: Path, v: Tree)
    requires path != [] && v.Leaf? && SingleElements(p)
    ensures var r := Insert(p, path, v); r.Some? ==> SingleElements(r.value)
    decreases path
  {
    forall p ensures LeafAt(Nil, p).None? && (LeafAt(v, p).Some? <==> p == []) {
      NoLeafInNil(p);
      OneLeafInLeaf(v, p);
    }
    if |path| > 1 {
      MadeForOne(path[1..], v, []);
      var y := Insert(Default(path[1..]), path[1..], v).value;
      forall q ensures LeafAt(y, q).Some? ==> q == path[1..] {
        MadeForOne(path[1..], v, q);
      }
      if path[0].Key? && p.Dict? {
        InsertKeepsSingle(if path[0].k in p.d then p.d[path[0].k] else Default(path[1..]), path[1..], v);
      }
    }
  }

  lemma {:induction false} ResultIsSingle(dst: Tree, es: seq<Entry>)
    requires SingleElements(dst) && forall e :: e in es ==> e.path != [] && e.v.Leaf?
    ensures var r := Unflattened(dst, es); r.Some? ==> SingleElements(r.value)
    decreases |es|
  {
    if es != [] {
      InsertKeepsSingle(dst, es[0].path, es[0].v);
      var next := Insert(dst, es[0].path, es[0].v);
      if next.Some? { ResultIsSingle(next.value, es[1..]); }
    }
  }

  // ---- single elements come back ----

  function Tail(S: set<Path>, part: Part): set<Path> {
    set q | q in S && q != [] && q[0] == part :: q[1..]
  }

  predicate Started(S: set<Path>, part: Part) {
    exists q :: q in S && q != [] && q[0] == part
  }

  ghost predicate LeavesOf(t: Tree, S: set<Path>) {
    forall q {:trigger q in S} :: q in S ==> LeafAt(t, q).Some?
  }

  /** `p` is what there is of `t` once the scalars at the paths `S` have been put in: dicts hold the keys that
      have been begun, lists reach at least as far as the elements that have. */
  ghost predicate Built(p: Tree, t: Tree, S: set<Path>) {
    match t
    case Nil => false
    case Leaf(_) => p == t
    case List(xs) =>
      p.List? && |p.xs| <= |xs| && forall i: nat :: i < |xs| ==> ElementBuilt(p.xs, xs, S, i)
    case Dict(d) =>
      p.Dict? && (forall k {:trigger k in p.d} :: k in p.d ==> k in d) &&
      forall k {:trigger d[k]} :: k in d ==>
        (k in p.d <==> Started(S, Key(k))) && (k in p.d ==> Built(p.d[k], d[k], Tail(S, Key(k))))
  }

  ghost predicate ElementBuilt(ps: seq<Tree>, xs: seq<Tree>, S: set<Path>, i: nat)
    requires i < |xs|
  {
    Started(S, Idx(i)) ==> i < |ps| && ps[i] == xs[i]
  }

  lemma {:induction false} SomeLeaf(t: Tree) returns (p: Path)
    requires Full(t)
    ensures LeafAt(t, p).Some?
    decreases t
  {
    match t
    case Leaf(_) => p := [];
    case List(xs) =>
      var q := SomeLeaf(xs[0]);
      p := [Idx(0)] + q;
      assert p[1..] == q;
    case Dict(d) =>
      var k :| k in d;
      var q := SomeLeaf(d[k]);
      p := [Key(k)] + q;
      assert p[1..] == q;
  }

  lemma LeafInside(t: Tree, part: Part, q: Path)
    ensures LeafAt(t, [part] + q)
            == match part
               case Key(k) => if t.Dict? && k in t.d then LeafAt(t.d[k], q) else None
               case Idx(i) => if t.List? && i < |t.xs| then LeafAt(t.xs[i], q) else None
  {
    assert ([part] + q)[1..] == q;
  }

  /** An object with one scalar is made anew from the scalar's path alone. */
  lemma {:induction false} MadeAnew(x: Tree, path: Path)
    requires Full(x) && AtMostOneLeaf(x) && path != [] && LeafAt(x, path).Some?
    ensures Insert(Default(path), path, LeafAt(x, path).value) == Some(x)
    decreases path
  {
    var v := LeafAt(x, path).value;
    var y := if path[0].Key? then x.d[path[0].k] else x.xs[path[0].i];
    assert path == [path[0]] + path[1..];
    OnlyElement(x, path);
    forall p, q | LeafAt(y, p).Some? && LeafAt(y, q).Some? ensures p == q {
      LeafInside(x, path[0], p);
      LeafInside(x, path[0], q);
      assert ([path[0]] + p)[1..] == p && ([path[0]] + q)[1..] == q;
    }
    if |path| == 1 {
      OneLeafIs(y, path[1..]);
    } else {
      NotALeaf(y, path[1..]);
      MadeAnew(y, path[1..]);
    }
    match x
    case List(xs) => assert Extend([], 1)[0 := y] == xs;
    case Dict(d) => assert map[path[0].k := y] == d;
  }

  lemma OneLeafIs(y: Tree, p: Path)
    requires p == [] && LeafAt(y, p).Some?
    ensures LeafAt(y, p).value == y
  {
  }

  lemma NotALeaf(y: Tree, p: Path)
    requires p != [] && LeafAt(y, p).Some?
    ensures !y.Leaf?
  {
  }

  /** A container with one scalar has one element. */
  lemma OnlyElement(x: Tree, path: Path)
    requires Full(x) && AtMostOneLeaf(x) && path != [] && LeafAt(x, path).Some?
    ensures x.List? ==> path[0] == Idx(0) && |x.xs| == 1
    ensures x.Dict? ==> path[0].Key? && x.d.Keys == {path[0].k}
  {
    match x
    case List(xs) =>
      forall i | 0 <= i < |xs| ensures path[0] == Idx(i) {
        var q := SomeLeaf(xs[i]);
        LeafInside(x, Idx(i), q);
        assert ([Idx(i)] + q)[0] == Idx(i);
      }
      assert path[0] == Idx(|xs| - 1);
    case Dict(d) =>
      forall k | k in d ensures path[0] == Key(k) {
        var q := SomeLeaf(d[k]);
        LeafInside(x, Key(k), q);
        assert ([Key(k)] + q)[0] == Key(k);
      }
  }

  lemma TailStep(S: set<Path>, path: Path, part: Part)
    requires path != []
    ensures Tail(S + {path}, part) == if part == path[0] then Tail(S, part) + {path[1..]} else Tail(S, part)
    ensures Started(S + {path}, part) <==> part == path[0] || Started(S, part)
  {
    if Started(S, part) {
      var q :| q in S && q != [] && q[0] == part;
      assert q in S + {path};
    }
    assert path in S + {path};
  }

  lemma TailLeaves(t: Tree, S: set<Path>, part: Part)
    requires LeavesOf(t, S)
    ensures t.Dict? && part.Key? && part.k in t.d ==> LeavesOf(t.d[part.k], Tail(S, part))
  {
  }

  lemma {:induction false} InsertBuilds(p: Tree, t: Tree, S: set<Path>, path: Path)
    requires Full(t) && SingleElements(t) && (t.List? || t.Dict?) && Built(p, t, S) && LeavesOf(t, S)
    requires path != [] && LeafAt(t, path).Some? && path !in S
    ensures var r := Insert(p, path, LeafAt(t, path).value);
            r.Some? && Built(r.value, t, S + {path})
    decreases path
  {
    match t
    case List(xs) => InsertElement(p, t, S, path);
    case Dict(d) =>
      var k := path[0].k;
      if |path| == 1 {
        OneLeafIs(d[k], path[1..]);
        LeafNotStarted(t, S, path);
        DictBuilt(p, t, S, path, d[k]);
      } else {
        NotALeaf(d[k], path[1..]);
        InsertInDict(p, t, S, path);
      }
  }

  lemma LeafNotStarted(t: Tree, S: set<Path>, path: Path)
    requires t.Dict? && LeavesOf(t, S) && |path| == 1 && path !in S && LeafAt(t, path).Some?
    ensures !Started(S, path[0]) && t.d[path[0].k].Leaf?
  {
    var x := t.d[path[0].k];
    OneLeafIs(x, path[1..]);
    assert path == [path[0]] + path[1..];
    forall q | q in S ensures q == [] || q[0] != path[0] {
      if q != [] {
        assert q == [q[0]] + q[1..];
        OneLeafInLeaf(x, q[1..]);
      }
    }
  }

  /** One more scalar under a key: the other keys are as they were. */
  lemma DictBuilt(p: Tree, t: Tree, S: set<Path>, path: Path, y: Tree)
    requires t.Dict? && Built(p, t, S) && path != [] && path[0].Key? && path[0].k in t.d
    requires Built(y, t.d[path[0].k], Tail(S, path[0]) + {path[1..]})
    ensures Built(Dict(p.d[path[0].k := y]), t, S + {path})
  {
    var k, d' := path[0].k, p.d[path[0].k := y];
    forall h | h in t.d
      ensures (h in d' <==> Started(S + {path}, Key(h))) && (h in d' ==> Built(d'[h], t.d[h], Tail(S + {path}, Key(h))))
    {
      TailStep(S, path, Key(h));
      hide Tail, Started;
    }
  }

  lemma InsertElement(p: Tree, t: Tree, S: set<Path>, path: Path)
    requires Full(t) && SingleElements(t) && t.List? && Built(p, t, S)
    requires path != [] && LeafAt(t, path).Some?
    ensures var r := Insert(p, path, LeafAt(t, path).value);
            r.Some? && Built(r.value, t, S + {path})
  {
    var i, v := path[0].i, LeafAt(t, path).value;
    var x := t.xs[i];
    if |path| == 1 {
      OneLeafIs(x, path[1..]);
    } else {
      NotALeaf(x, path[1..]);
      MadeAnew(x, path[1..]);
    }
    assert Insert(p, path, v) == Some(List(Extend(p.xs, i + 1)[i := x]));
    var ys := Extend(p.xs, i + 1)[i := x];
    forall j: nat | j < |t.xs| ensures ElementBuilt(ys, t.xs, S + {path}, j) {
      TailStep(S, path, Idx(j));
      assert ElementBuilt(p.xs, t.xs, S, j);
    }
  }

  lemma {:induction false} InsertInDict(p: Tree, t: Tree, S: set<Path>, path: Path)
    requires Full(t) && SingleElements(t) && t.Dict? && Built(p, t, S) && LeavesOf(t, S)
    requires |path| > 1 && LeafAt(t, path).Some? && path !in S && !t.d[path[0].k].Leaf?
    ensures var r := Insert(p, path, LeafAt(t, path).value);
            r.Some? && Built(r.value, t, S + {path})
    decreases path, 0
  {
    var k := path[0].k;
    var x, S1 := t.d[k], Tail(S, Key(k));
    var y := if k in p.d then p.d[k] else Default(path[1..]);
    TailLeaves(t, S, Key(k));
    TailOnly(S, path);
    if k !in p.d { NothingBuilt(x, path[1..], S, Key(k)); }
    hide Tail, Started, LeavesOf;
    InsertBuilds(y, x, S1, path[1..]);
    DictBuilt(p, t, S, path, Insert(y, path[1..], LeafAt(x, path[1..]).value).value);
  }

  lemma TailOnly(S: set<Path>, path: Path)
    requires path != [] && path !in S
    ensures path[1..] !in Tail(S, path[0])
  {
    forall q | q in S && q != [] && q[0] == path[0] ensures q[1..] != path[1..] {
      assert q == [q[0]] + q[1..] && path == [path[0]] + path[1..];
    }
  }

  lemma NothingBuilt(x: Tree, path: Path, S: set<Path>, part: Part)
    requires path != [] && LeafAt(x, path).Some? && !Started(S, part)
    ensures Built(Default(path), x, Tail(S, part))
  {
    assert Tail(S, part) == {};
    forall h ensures !Started({}, h) {
    }
  }

  /** When every scalar has been put in, everything is there. */
  lemma {:induction false} AllBuilt(p: Tree, t: Tree, S: set<Path>)
    requires Full(t) && Built(p, t, S) && forall q {:trigger LeafAt(t, q)} :: LeafAt(t, q).Some? ==> q in S
    ensures p == t
    decreases t
  {
    match t
    case Leaf(_) =>
    case List(xs) =>
      forall i: nat | i < |xs| ensures i < |p.xs| && p.xs[i] == xs[i] {
        assert ElementBuilt(p.xs, xs, S, i);
        var q := SomeLeaf(xs[i]);
        LeafInside(t, Idx(i), q);
        assert ([Idx(i)] + q)[0] == Idx(i);
      }
      var n: nat := |xs| - 1;
      assert xs[n] == xs[n] && n < |p.xs|;
      assert p.xs == xs;
    case Dict(d) =>
      forall k | k in d ensures k in p.d && p.d[k] == d[k] {
        var q0 := SomeLeaf(d[k]);
        LeafInside(t, Key(k), q0);
        assert ([Key(k)] + q0)[0] == Key(k);
        forall q | LeafAt(d[k], q).Some? ensures q in Tail(S, Key(k)) {
          LeafInside(t, Key(k), q);
          assert ([Key(k)] + q)[1..] == q && ([Key(k)] + q)[0] == Key(k);
        }
        AllBuilt(p.d[k], d[k], Tail(S, Key(k)));
      }
      assert p.d == d;
  }

  // ---- every order ----

  /** The entries are the scalars of a tree with their paths, in any order, each once. */
  ghost predicate Enumerates(t: Tree, es: seq<Entry>) {
    && (forall e {:trigger e in es} :: e in es ==> LeafAt(t, e.path) == Some(e.v))
    && (forall q {:trigger LeafAt(t, q)} :: LeafAt(t, q).Some? ==> exists e :: e in es && e.path == q)
    && (forall i, j {:trigger es[i], es[j]} :: 0 <= i < j < |es| ==> es[i].path != es[j].path)
  }

  lemma {:induction false} BuildsAll(dst: Tree, t: Tree, S: set<Path>, es: seq<Entry>)
    requires Full(t) && SingleElements(t) && t.Dict? && Built(dst, t, S) && LeavesOf(t, S)
    requires forall e {:trigger e in es} :: e in es ==> LeafAt(t, e.path) == Some(e.v) && e.path !in S
    requires forall i, j {:trigger es[i], es[j]} :: 0 <= i < j < |es| ==> es[i].path != es[j].path
    ensures forall e :: e in es ==> e.path != []
    ensures Unflattened(dst, es).Some?
    ensures Built(Unflattened(dst, es).value, t, S + set e | e in es :: e.path)
    decreases |es|
  {
    if es == [] {
      assert S + (set e | e in es :: e.path) == S;
    } else {
      var e, rest := es[0], es[1..];
      assert e in es;
      InsertBuilds(dst, t, S, e.path);
      forall e' | e' in rest ensures LeafAt(t, e'.path) == Some(e'.v) && e'.path !in S + {e.path} {
        var i :| 0 <= i < |rest| && rest[i] == e';
        assert es[i + 1] == e' && e' in es;
      }
      forall i, j | 0 <= i < j < |rest| ensures rest[i].path != rest[j].path {
        assert es[i + 1].path != es[j + 1].path;
      }
      BuildsAll(Insert(dst, e.path, e.v).value, t, S + {e.path}, rest);
      PathsSplit(S, es);
    }
  }

  lemma PathsSplit(S: set<Path>, es: seq<Entry>)
    requires es != []
    ensures S + {es[0].path} + (set e | e in es[1..] :: e.path) == S + set e | e in es :: e.path
  {
    var a, b := S + {es[0].path} + (set e | e in es[1..] :: e.path), S + set e | e in es :: e.path;
    forall q | q in b ensures q in a {
      if q !in S {
        var e :| e in es && e.path == q;
        var i :| 0 <= i < |es| && es[i] == e;
        if i > 0 { assert es[1..][i - 1] == e; }
      }
    }
  }

  /** Whatever order its flat items are visited in, a dict of non-empty containers comes back as it was exactly
      when no list element in it holds more than one scalar. */
  lemma UnflattenExactly(t: Tree, es: seq<Entry>)
    requires t.Dict? && Full(t) && Enumerates(t, es)
    ensures forall e :: e in es ==> e.path != []
    ensures Unflattened(Dict(map[]), es) == Some(t) <==> SingleElements(t)
  {
    forall e | e in es ensures e.path != [] { assert LeafAt(t, e.path) == Some(e.v); }
    if SingleElements(t) {
      BuildsAll(Dict(map[]), t, {}, es);
      var S := {} + set e | e in es :: e.path;
      AllBuilt(Unflattened(Dict(map[]), es).value, t, S);
    } else {
      ResultIsSingle(Dict(map[]), es);
    }
  }

  /** A dict with one list of one element. */
  function Around(x: Tree): Tree {
    Dict(map["a" := List([x])])
  }

  lemma LeafAround(x: Tree, r: Path)
    ensures LeafAt(Around(x), r)
            == if |r| >= 2 && r[0] == Key("a") && r[1] == Idx(0) then LeafAt(x, r[2..]) else None
  {
    if |r| >= 2 {
      assert r[1..][1..] == r[2..];
    }
  }

  lemma TwoLeaves(q: Path)
    ensures var x := Dict(map["b" := Leaf(1), "c" := Leaf(2)]);
            LeafAt(x, q) == if q == [Key("b")] then Some(Leaf(1)) else if q == [Key("c")] then Some(Leaf(2)) else None
  {
    if q != [] {
      assert q == [q[0]] + q[1..];
      OneLeafInLeaf(Leaf(1), q[1..]);
      OneLeafInLeaf(Leaf(2), q[1..]);
    }
  }

  lemma InsertLast(k: string, v: Tree)
    ensures Insert(Dict(map[]), [Key(k)], v) == Some(Dict(map[k := v]))
  {
    assert map[][k := v] == map[k := v];
  }

  /** A path through a list element makes the element anew. */
  lemma InsertInList(ys: seq<Tree>, k: string, v: Tree)
    requires |ys| <= 1
    ensures Insert(List(ys), [Idx(0), Key(k)], v) == Some(List([Dict(map[k := v])]))
  {
    InsertLast(k, v);
    var path, x := [Idx(0), Key(k)], Dict(map[k := v]);
    assert path[1..] == [Key(k)] && Default([Key(k)]) == Dict(map[]);
    assert Extend(ys, 1)[0 := x] == [x];
    hide Extend;
  }

  lemma InsertAround(p: Tree, ys: seq<Tree>, k: string, v: Tree)
    requires |ys| <= 1 && p == if ys == [] then Dict(map[]) else Around(ys[0])
    ensures Insert(p, [Key("a"), Idx(0), Key(k)], v) == Some(Around(Dict(map[k := v])))
  {
    var path, x := [Key("a"), Idx(0), Key(k)], Dict(map[k := v]);
    InsertInList(ys, k, v);
    assert path[1..] == [Idx(0), Key(k)];
    assert ys != [] ==> [ys[0]] == ys;
    assert p.d["a" := List([x])] == map["a" := List([x])];
    assert Default(path[1..]) == List([]);
    if ys != [] { assert p.d["a"] == List(ys); }
    InsertStep(p, path, v, List(ys), List([x]));
  }

  /** Inserting below a key. */
  lemma InsertStep(p: Tree, path: Path, v: Tree, y: Tree, z: Tree)
    requires p.Dict? && |path| > 1 && path[0].Key?
    requires y == (if path[0].k in p.d then p.d[path[0].k] else Default(path[1..]))
    requires Insert(y, path[1..], v) == Some(z)
    ensures Insert(p, path, v) == Some(Dict(p.d[path[0].k := z]))
  {
  }

  const LOST: Tree := Around(Dict(map["b" := Leaf(1), "c" := Leaf(2)]))
  const LOST_B: Path := [Key("a"), Idx(0), Key("b")]
  const LOST_C: Path := [Key("a"), Idx(0), Key("c")]

  lemma LostLeaves(r: Path)
    ensures LeafAt(LOST, r) == if r == LOST_B then Some(Leaf(1)) else if r == LOST_C then Some(Leaf(2)) else None
  {
    LeafAround(Dict(map["b" := Leaf(1), "c" := Leaf(2)]), r);
    hide LeafAt, Around;
    assert LOST_B[2..] == [Key("b")] && LOST_C[2..] == [Key("c")];
    if |r| >= 2 {
      TwoLeaves(r[2..]);
      assert r == [r[0], r[1]] + r[2..];
    }
  }

  lemma LostIsNotSingle()
    ensures !SingleElements(LOST)
  {
    var x := Dict(map["b" := Leaf(1), "c" := Leaf(2)]);
    TwoLeaves([Key("b")]);
    TwoLeaves([Key("c")]);
    hide LeafAt;
    assert [Key("b")][0] != [Key("c")][0];
    assert !AtMostOneLeaf(x);
    assert LOST.d["a"].xs[0] == x;
  }

  lemma LostEnumerated(es: seq<Entry>)
    requires es == [Entry(LOST_B, Leaf(1)), Entry(LOST_C, Leaf(2))]
    ensures Enumerates(LOST, es)
  {
    forall r ensures LeafAt(LOST, r) == if r == LOST_B then Some(Leaf(1)) else if r == LOST_C then Some(Leaf(2)) else None {
      LostLeaves(r);
    }
    hide LeafAt, Around;
    assert LOST_B[2] != LOST_C[2];
    assert es[0] in es && es[1] in es;
  }

  /** The smallest example: a list element with two scalars keeps only the one inserted last. */
  lemma ElementLost()
    ensures var es := [Entry(LOST_B, Leaf(1)), Entry(LOST_C, Leaf(2))];
            && Enumerates(LOST, es) && !SingleElements(LOST)
            && Unflattened(Dict(map[]), es) == Some(Around(Dict(map["c" := Leaf(2)])))
  {
    var es := [Entry(LOST_B, Leaf(1)), Entry(LOST_C, Leaf(2))];
    LostEnumerated(es);
    LostIsNotSingle();
    var one, two := Around(Dict(map["b" := Leaf(1)])), Around(Dict(map["c" := Leaf(2)]));
    InsertAround(Dict(map[]), [], "b", Leaf(1));
    InsertAround(one, [Dict(map["b" := Leaf(1)])], "c", Leaf(2));
    hide Insert, Enumerates, SingleElements, Around;
    assert es[1..] == [es[1]] && [es[1]][1..] == [];
    assert Unflattened(two, []) == Some(two);
    assert Unflattened(one, [es[1]]) == Some(two);
  }

  // ---- dotted keys ----

  predicate IsDigit(c: char) { '0' <= c <= '9' }

  /** Whether a string is a number: not empty and all digits. */
  predicate IsNumber(s: string) {
    s != [] && forall i :: 0 <= i < |s| ==> IsDigit(s[i])
  }

  function Decimal(n: nat): (s: string)
    ensures IsNumber(s)
  {
    var last := '0' + (n % 10) as char;
    if n < 10 then [last] else Decimal(n / 10) + [last]
  }

  function Number(s: string): nat
    requires forall i :: 0 <= i < |s| ==> IsDigit(s[i])
  {
    if s == [] then 0
    else
      assert IsDigit(s[|s| - 1]);
      Number(s[..|s| - 1]) * 10 + (s[|s| - 1] as int - '0' as int)
  }

  lemma {:induction false} DecimalRoundTrip(n: nat)
    ensures Number(Decimal(n)) == n
    decreases n
  {
    var last := '0' + (n % 10) as char;
    if n < 10 {
      assert Decimal(n)[..0] == [];
    } else {
      DecimalRoundTrip(n / 10);
      assert Decimal(n)[..|Decimal(n)| - 1] == Decimal(n / 10);
    }
  }

  function Written(part: Part): string {
    match part
    case Key(k) => k
    case Idx(i) => Decimal(i)
  }

  function ReadPart(s: string): Part {
    if IsNumber(s) then Idx(Number(s)) else Key(s)
  }

  /** A part is an index exactly when it is digits only, and at least one; its value is read with base ten. */
  lemma PartIs(s: string, c: char)
    ensures ReadPart("") == Key("")
    ensures ReadPart(s).Idx? <==> s != "" && forall i :: 0 <= i < |s| ==> '0' <= s[i] <= '9'
    ensures ReadPart(s).Key? ==> ReadPart(s).k == s
    ensures ReadPart(s).Idx? && '0' <= c <= '9' ==>
              ReadPart(s + [c]).Idx? && ReadPart(s + [c]).i == 10 * ReadPart(s).i + (c as int - '0' as int)
    ensures '0' <= c <= '9' ==> ReadPart([c]) == Idx(c as int - '0' as int)
  {
    assert (s + [c])[..|s|] == s && [c][..0] == [];
    assert Number([]) == 0;
    assert IsDigit(c) ==> Number([c]) == Number([c][..0]) * 10 + (c as int - '0' as int);
  }

  /** A path as a flat key. */
  function Joined(path: Path): string
    requires path != []
  {
    if |path| == 1 then Written(path[0]) else Written(path[0]) + "." + Joined(path[1..])
  }

  function FirstDot(s: string): (i: nat)
    ensures i <= |s| && '.' !in s[..i] && (i < |s| ==> s[i] == '.')
  {
    if s == [] || s[0] == '.' then 0 else FirstDot(s[1..]) + 1
  }

  function ReadPath(s: string): (path: Path)
    ensures path != []
    decreases |s|
  {
    var i := FirstDot(s);
    if i == |s| then [ReadPart(s)] else [ReadPart(s[..i])] + ReadPath(s[i + 1..])
  }

  /** A key that can stand in a path: without dots, and no number. */
  predicate PlainKey(k: string) {
    '.' !in k && !IsNumber(k)
  }

  predicate PlainPath(path: Path) {
    forall i :: 0 <= i < |path| && path[i].Key? ==> PlainKey(path[i].k)
  }

  /** All keys are plain. */
  ghost predicate PlainKeys(t: Tree) {
    match t
    case List(xs) => forall i {:trigger xs[i]} :: 0 <= i < |xs| ==> PlainKeys(xs[i])
    case Dict(d) => forall k {:trigger d[k]} :: k in d ==> PlainKey(k) && PlainKeys(d[k])
    case _ => true
  }

  lemma PartRoundTrip(part: Part)
    requires part.Key? ==> PlainKey(part.k)
    ensures ReadPart(Written(part)) == part && '.' !in Written(part)
  {
    if part.Idx? {
      DecimalRoundTrip(part.i);
      forall c | c in Decimal(part.i) ensures c != '.' {
        var j :| 0 <= j < |Decimal(part.i)| && Decimal(part.i)[j] == c;
        assert IsDigit(Decimal(part.i)[j]);
      }
    }
  }

  lemma {:induction false} FirstDotAt(s: string, rest: string)
    requires '.' !in s
    ensures FirstDot(s) == |s| && FirstDot(s + "." + rest) == |s|
    decreases |s|
  {
    if s != [] {
      FirstDotAt(s[1..], rest);
      assert (s + "." + rest)[1..] == s[1..] + "." + rest;
    }
  }

  /** Reading a key whose first part is written out in front of another key. */
  lemma ReadInFront(s: string, rest: string)
    requires '.' !in s
    ensures ReadPath(s) == [ReadPart(s)]
    ensures ReadPath(s + "." + rest) == [ReadPart(s)] + ReadPath(rest)
  {
    FirstDotAt(s, rest);
    var key := s + "." + rest;
    assert key[..|s|] == s && key[|s| + 1..] == rest;
  }

  /** Every plain path can be read back from its flat key. */
  lemma {:induction false} PathRoundTrip(path: Path)
    requires path != [] && PlainPath(path)
    ensures ReadPath(Joined(path)) == path
    decreases |path|
  {
    PartRoundTrip(path[0]);
    hide ReadPath, ReadPart, Written, PlainKey, IsNumber;
    assert path == [path[0]] + path[1..];
    if |path| == 1 {
      ReadInFront(Written(path[0]), "");
      assert path == [path[0]];
    } else {
      PathRoundTrip(path[1..]);
      ReadInFront(Written(path[0]), Joined(path[1..]));
    }
  }

  lemma {:induction false} LeafPathsPlain(t: Tree, path: Path)
    requires PlainKeys(t) && LeafAt(t, path).Some?
    ensures PlainPath(path)
    decreases path
  {
    if path != [] {
      var x := if path[0].Key? then t.d[path[0].k] else t.xs[path[0].i];
      LeafPathsPlain(x, path[1..]);
      assert path == [path[0]] + path[1..];
    }
  }

  // ---- flatten ----

  /** A flat dict holds exactly the scalars of a tree, under their paths' keys. */
  ghost predicate Flat(t: Tree, m: map<string, Tree>) {
    && (forall key {:trigger key in m} :: key in m ==> HasKey(t, key) && LeafAt(t, ReadPath(key)) == Some(m[key]))
    && (forall q {:trigger LeafAt(t, q)} :: q != [] && LeafAt(t, q).Some? ==> Joined(q) in m)
  }

  /** The key is that of the path it reads as, and there is a scalar. */
  ghost predicate HasKey(t: Tree, key: string) {
    Joined(ReadPath(key)) == key && LeafAt(t, ReadPath(key)).Some?
  }

  /** A scalar is its own flat form; any other object's is a flat dict. */
  ghost predicate FlatForm(t: Tree, r: Tree) {
    if t.Leaf? then r == t else r.Dict? && Flat(t, r.d)
  }

  /** What is directly inside an object under a key. */
  function Child(t: Tree, key: string): Option<Tree> {
    match t
    case Dict(d) => if key in d then Some(d[key]) else None
    case List(xs) => if IsNumber(key) && Number(key) < |xs| && Decimal(Number(key)) == key then Some(xs[Number(key)]) else None
    case _ => None
  }

  /** The flat forms of everything directly inside an object. */
  ghost predicate FlatChildren(t: Tree, flat: map<string, Tree>) {
    forall key {:trigger key in flat} {:trigger Child(t, key)} ::
      (key in flat <==> Child(t, key).Some?) && (key in flat ==> FlatForm(Child(t, key).value, flat[key]))
  }

  /** Flattens an object: the flat forms of what is inside it, put under longer keys. */
  method Flatten(src: Tree) returns (r: Tree)
    requires Full(src) && PlainKeys(src)
    ensures FlatForm(src, r)
    decreases src
  {
    hide FlatForm;
    var flat: map<string, Tree> := map[];
    match src {
      case List(xs) =>
        for i := 0 to |xs|
          invariant forall key {:trigger key in flat} {:trigger Child(src, key)} ::
            (key in flat <==> Child(src, key).Some? && Number(key) < i)
            && (key in flat ==> FlatForm(Child(src, key).value, flat[key]))
        {
          var x := Flatten(xs[i]);
          flat := flat[Decimal(i) := x];
          NumberIs(i);
        }
      case Dict(d) =>
        var keys := d.Keys;
        while keys != {}
          invariant keys <= d.Keys
          invariant forall key {:trigger key in flat} :: key in flat <==> key in d && key !in keys
          invariant forall key {:trigger key in flat} :: key in flat ==> FlatForm(d[key], flat[key])
          decreases |keys|
        {
          var k :| k in keys;
          var x := Flatten(d[k]);
          flat := flat[k := x];
          keys := keys - {k};
        }
      case _ =>
        LeafIsFlat(src);
        return src;
    }
    var dst := Merged(flat, src);
    r := Dict(dst);
    DictIsFlat(src, dst);
  }

  lemma LeafIsFlat(t: Tree)
    requires t.Leaf?
    ensures FlatForm(t, t)
  {
  }

  lemma DictIsFlat(t: Tree, m: map<string, Tree>)
    requires !t.Leaf? && Flat(t, m)
    ensures FlatForm(t, Dict(m))
  {
  }

  lemma NumberIs(i: nat)
    ensures Number(Decimal(i)) == i
    ensures forall key: string {:trigger Number(key)} :: IsNumber(key) && Decimal(Number(key)) == key && Number(key) == i ==> key == Decimal(i)
  {
    DecimalRoundTrip(i);
  }

  /** A flat key up to its first dot. */
  function First(key: string): string {
    key[..FirstDot(key)]
  }

  /** What the flat forms of an object's parts have under a flat key of the object. */
  function Under(flat: map<string, Tree>, key: string): Option<Tree> {
    var i := FirstDot(key);
    if First(key) !in flat then None
    else if !flat[First(key)].Dict? then if i == |key| then Some(flat[First(key)]) else None
    else if i < |key| && key[i + 1..] in flat[First(key)].d then Some(flat[First(key)].d[key[i + 1..]])
    else None
  }

  /** Puts the flat forms of an object's parts under keys of the object. */
  method Merged(flat: map<string, Tree>, ghost t: Tree) returns (dst: map<string, Tree>)
    requires (t.List? || t.Dict?) && Full(t) && PlainKeys(t) && FlatChildren(t, flat)
    ensures Flat(t, dst)
  {
    dst := map[];
    var keys := flat.Keys;
    NoneMerged(flat);
    hide *;
    while keys != {}
      invariant keys <= flat.Keys && MergedBut(flat, keys, dst)
      decreases |keys|
    {
      var k1 :| k1 in keys;
      FlatKey(flat, t, k1);
      NotYetMerged(flat, keys, dst, k1);
      ghost var before := dst;
      if flat[k1].Dict? {
        dst := AddPrefixed(dst, k1, flat[k1].d);
        DictMerged(flat, keys, before, k1, dst);
      } else {
        dst := dst[k1 := flat[k1]];
        LeafMerged(flat, keys, before, k1);
      }
      keys := keys - {k1};
    }
    MergedIsFlat(flat, t, dst);
  }

  /** The parts under all keys but some have been put in. */
  ghost predicate MergedBut(flat: map<string, Tree>, keys: set<string>, dst: map<string, Tree>) {
    && (forall key {:trigger key in dst} {:trigger Under(flat, key)} ::
          key in dst <==> First(key) !in keys && Under(flat, key).Some?)
    && (forall key {:trigger key in dst} :: key in dst ==> Under(flat, key) == Some(dst[key]))
  }

  lemma NoneMerged(flat: map<string, Tree>)
    ensures MergedBut(flat, flat.Keys, map[])
  {
  }

  lemma NotYetMerged(flat: map<string, Tree>, keys: set<string>, dst: map<string, Tree>, k1: string)
    requires MergedBut(flat, keys, dst) && k1 in keys
    ensures Without(dst, k1)
  {
    hide Under, First;
  }

  ghost predicate Without(dst: map<string, Tree>, k1: string) {
    forall key {:trigger key in dst} :: key in dst ==> First(key) != k1
  }

  /** The items of `m` have been put into `dst` under longer keys. */
  ghost predicate Prefixed(dst: map<string, Tree>, k1: string, m: map<string, Tree>, r: map<string, Tree>) {
    && (forall key {:trigger key in r} :: key in r <==>
          key in dst || (First(key) == k1 && FirstDot(key) < |key| && key[FirstDot(key) + 1..] in m))
    && (forall key {:trigger key in r} :: key in r ==>
          r[key] == if key in dst then dst[key] else m[key[FirstDot(key) + 1..]])
  }

  lemma FlatKey(flat: map<string, Tree>, t: Tree, k: string)
    requires (t.List? || t.Dict?) && Full(t) && PlainKeys(t) && FlatChildren(t, flat) && k in flat
    ensures '.' !in k
  {
    ChildKey(t, k);
  }

  lemma DictMerged(flat: map<string, Tree>, keys: set<string>, dst: map<string, Tree>, k1: string, r: map<string, Tree>)
    requires MergedBut(flat, keys, dst) && k1 in keys && k1 in flat && flat[k1].Dict? && '.' !in k1
    requires Prefixed(dst, k1, flat[k1].d, r)
    ensures MergedBut(flat, keys - {k1}, r)
  {
    UnderOne(flat, k1);
    hide Under, First, FirstDot;
  }

  lemma LeafMerged(flat: map<string, Tree>, keys: set<string>, dst: map<string, Tree>, k1: string)
    requires MergedBut(flat, keys, dst) && k1 in keys && k1 in flat && !flat[k1].Dict? && '.' !in k1
    ensures MergedBut(flat, keys - {k1}, dst[k1 := flat[k1]])
  {
    UnderOne(flat, k1);
    hide Under, First, FirstDot;
  }

  lemma UnderOne(flat: map<string, Tree>, k1: string)
    requires '.' !in k1 && k1 in flat
    ensures First(k1) == k1
    ensures forall key {:trigger Under(flat, key)} :: First(key) == k1 ==>
      Under(flat, key)
      == if !flat[k1].Dict? then if key == k1 then Some(flat[k1]) else None
         else if FirstDot(key) < |key| && key[FirstDot(key) + 1..] in flat[k1].d
         then Some(flat[k1].d[key[FirstDot(key) + 1..]]) else None
  {
    FirstDotAt(k1, "");
    assert k1[..|k1|] == k1;
    hide FirstDot;
    forall key | First(key) == k1 ensures FirstDot(key) == |key| <==> key == k1 {
      assert FirstDot(key) == |key| ==> key[..|key|] == key;
    }
  }

  /** Puts the items of a dict under longer keys. */
  method AddPrefixed(dst: map<string, Tree>, k1: string, m: map<string, Tree>) returns (r: map<string, Tree>)
    requires '.' !in k1 && Without(dst, k1)
    ensures Prefixed(dst, k1, m, r)
  {
    r := dst;
    var keys := m.Keys;
    hide FirstDot;
    while keys != {}
      invariant keys <= m.Keys
      invariant forall key {:trigger key in r} :: key in r <==>
        key in dst || (First(key) == k1 && FirstDot(key) < |key| && key[FirstDot(key) + 1..] in m.Keys - keys)
      invariant forall key {:trigger key in r} :: key in r ==>
        r[key] == if key in dst then dst[key] else m[key[FirstDot(key) + 1..]]
      decreases |keys|
    {
      var k2 :| k2 in keys;
      var long := k1 + "." + k2;
      FirstDotAt(k1, k2);
      assert First(long) == k1 && long[FirstDot(long) + 1..] == k2;
      forall key | First(key) == k1 && FirstDot(key) < |key| && key[FirstDot(key) + 1..] == k2 ensures key == long {
        assert key == key[..FirstDot(key)] + [key[FirstDot(key)]] + key[FirstDot(key) + 1..];
      }
      r := r[long := m[k2]];
      keys := keys - {k2};
    }
  }

  /** The keys directly inside an object are plain parts of paths. */
  lemma ChildKey(t: Tree, key: string)
    requires (t.List? || t.Dict?) && Full(t) && PlainKeys(t) && Child(t, key).Some?
    ensures '.' !in key && Written(ReadPart(key)) == key
    ensures forall q {:trigger LeafAt(Child(t, key).value, q)} ::
              LeafAt(t, [ReadPart(key)] + q) == LeafAt(Child(t, key).value, q)
  {
    if t.List? { PartRoundTrip(Idx(Number(key))); }
    forall q ensures LeafAt(t, [ReadPart(key)] + q) == LeafAt(Child(t, key).value, q) {
      LeafInside(t, ReadPart(key), q);
    }
  }

  lemma PartChild(t: Tree, q: Path)
    requires (t.List? || t.Dict?) && PlainKeys(t) && LeafAt(t, q).Some?
    ensures q != [] && Child(t, Written(q[0])).Some?
    ensures LeafAt(Child(t, Written(q[0])).value, q[1..]) == LeafAt(t, q)
    ensures '.' !in Written(q[0])
  {
    PartRoundTrip(q[0]);
  }

  lemma MergedIsFlat(flat: map<string, Tree>, t: Tree, dst: map<string, Tree>)
    requires (t.List? || t.Dict?) && Full(t) && PlainKeys(t) && FlatChildren(t, flat)
    requires MergedBut(flat, {}, dst)
    ensures Flat(t, dst)
  {
    hide FlatChildren;
    forall key | key in dst ensures HasKey(t, key) && LeafAt(t, ReadPath(key)) == Some(dst[key]) {
      UnderIsLeaf(flat, t, key);
    }
    forall q | q != [] && LeafAt(t, q).Some? ensures Joined(q) in dst {
      LeafIsUnder(flat, t, q);
    }
  }

  lemma UnderIsLeaf(flat: map<string, Tree>, t: Tree, key: string)
    requires (t.List? || t.Dict?) && Full(t) && PlainKeys(t) && FlatChildren(t, flat) && Under(flat, key).Some?
    ensures HasKey(t, key) && LeafAt(t, ReadPath(key)) == Under(flat, key)
  {
    hide FlatChildren, Full, PlainKeys, Child, Flat, LeafAt, HasKey, ReadPath, ReadPart, Written, Joined;
    var k1 := First(key);
    ChildForm(flat, t, k1);
    ChildKey(t, k1);
    var x := Child(t, k1).value;
    FirstSplits(key);
    hide FirstDot, First;
    if FirstDot(key) == |key| {
      KeyInside(t, x, key);
    } else {
      var k2 := key[FirstDot(key) + 1..];
      FlatAt(x, flat[k1].d, k2);
      KeyBelow(t, x, k1, k2);
    }
  }

  lemma ChildForm(flat: map<string, Tree>, t: Tree, key: string)
    requires Full(t) && FlatChildren(t, flat) && key in flat
    ensures Child(t, key).Some?
    ensures var x := Child(t, key).value;
            if flat[key].Dict? then Flat(x, flat[key].d) else x.Leaf? && flat[key] == x
  {
    var x := Child(t, key).value;
    assert FlatForm(x, flat[key]);
  }

  lemma FirstSplits(key: string)
    ensures FirstDot(key) == |key| ==> First(key) == key
    ensures FirstDot(key) < |key| ==> key == First(key) + "." + key[FirstDot(key) + 1..]
  {
    hide FirstDot;
    if FirstDot(key) < |key| {
      SplitAt(key, FirstDot(key));
    } else {
      assert key[..|key|] == key;
    }
  }

  lemma SplitAt(s: string, i: nat)
    requires i < |s|
    ensures s == s[..i] + [s[i]] + s[i + 1..]
  {
  }

  lemma FlatAt(t: Tree, m: map<string, Tree>, key: string)
    requires Flat(t, m) && key in m
    ensures HasKey(t, key) && LeafAt(t, ReadPath(key)) == Some(m[key])
  {
  }

  lemma KeyInside(t: Tree, x: Tree, key: string)
    requires '.' !in key && Written(ReadPart(key)) == key && x.Leaf?
    requires LeafAt(t, [ReadPart(key)] + []) == LeafAt(x, [])
    ensures HasKey(t, key) && LeafAt(t, ReadPath(key)) == Some(x)
  {
    ReadInFront(key, "");
    hide ReadPath, ReadPart, Written;
    assert [ReadPart(key)] + [] == [ReadPart(key)];
  }

  lemma KeyBelow(t: Tree, x: Tree, k1: string, k2: string)
    requires '.' !in k1 && Written(ReadPart(k1)) == k1 && HasKey(x, k2)
    requires LeafAt(t, [ReadPart(k1)] + ReadPath(k2)) == LeafAt(x, ReadPath(k2))
    ensures var key := k1 + "." + k2;
            HasKey(t, key) && LeafAt(t, ReadPath(key)) == LeafAt(x, ReadPath(k2))
  {
    ReadInFront(k1, k2);
    hide ReadPath, ReadPart, Written, LeafAt;
    var path := [ReadPart(k1)] + ReadPath(k2);
    assert path[0] == ReadPart(k1) && path[1..] == ReadPath(k2);
  }

  lemma LeafIsUnder(flat: map<string, Tree>, t: Tree, q: Path)
    requires (t.List? || t.Dict?) && Full(t) && PlainKeys(t) && FlatChildren(t, flat) && q != [] && LeafAt(t, q).Some?
    ensures Under(flat, Joined(q)).Some?
  {
    PartChild(t, q);
    var k1 := Written(q[0]);
    var x := Child(t, k1).value;
    assert k1 in flat && FlatForm(x, flat[k1]);
    hide FlatChildren, Full, PlainKeys, Child, LeafAt, Written, Flat;
    if |q| == 1 {
      OneLeafIs(x, q[1..]);
      UnderKey(flat, k1);
    } else {
      NotALeaf(x, q[1..]);
      UnderBelow(flat, k1, Joined(q[1..]), x, q[1..]);
    }
  }

  lemma UnderKey(flat: map<string, Tree>, k1: string)
    requires '.' !in k1 && k1 in flat && !flat[k1].Dict?
    ensures Under(flat, k1).Some?
  {
    FirstDotAt(k1, "");
    assert k1[..|k1|] == k1;
  }

  lemma UnderBelow(flat: map<string, Tree>, k1: string, k2: string, x: Tree, q: Path)
    requires '.' !in k1 && k1 in flat && FlatForm(x, flat[k1]) && !x.Leaf?
    requires q != [] && k2 == Joined(q) && LeafAt(x, q).Some?
    ensures Under(flat, k1 + "." + k2).Some?
  {
    FirstDotAt(k1, k2);
    hide LeafAt, Joined;
    var key := k1 + "." + k2;
    assert key[..|k1|] == k1 && key[|k1| + 1..] == k2;
  }

  // ---- unflatten ----

  ghost function Entries(src: map<string, Tree>, order: seq<string>): (es: seq<Entry>)
    requires forall k :: k in order ==> k in src
    ensures |es| == |order| && forall i :: 0 <= i < |es| ==> es[i] == Entry(ReadPath(order[i]), src[order[i]])
    ensures forall e :: e in es ==> e.path != []
  {
    seq(|order|, i requires 0 <= i < |order| => Entry(ReadPath(order[i]), src[order[i]]))
  }

  /** Some keys of a dict, in some order, each once. */
  ghost predicate InOrder(src: map<string, Tree>, order: seq<string>) {
    && (forall k :: k in order ==> k in src)
    && (forall i, j :: 0 <= i < j < |order| ==> order[i] != order[j])
  }

  lemma {:induction false} UnflattenedThen(dst: Tree, es: seq<Entry>, e: Entry)
    requires e.path != [] && forall e' :: e' in es ==> e'.path != []
    ensures forall e' :: e' in es + [e] ==> e'.path != []
    ensures Unflattened(dst, es + [e])
            == var r := Unflattened(dst, es); if r.Some? then Insert(r.value, e.path, e.v) else None
    decreases |es|
  {
    hide Insert;
    if es == [] {
      assert [] + [e] == [e] && [e][1..] == [];
    } else {
      assert (es + [e])[0] == es[0] && (es + [e])[1..] == es[1..] + [e];
      var next := Insert(dst, es[0].path, es[0].v);
      if next.Some? { UnflattenedThen(next.value, es[1..], e); }
    }
  }

  /** What unflattening may give: the tree built from the items in some order, or nothing, when some items, taken
      in some order, do not fit together. */
  ghost predicate Rebuilt(src: map<string, Tree>, dst: Option<Tree>, order: seq<string>) {
    && InOrder(src, order) && (dst.Some? ==> forall k :: k in src ==> k in order)
    && dst == Unflattened(Dict(map[]), Entries(src, order))
  }

  /** Rebuilds an object from flat items, visited in any order; it fails where a path does not fit the containers
      built so far. */
  method Unflatten(src: map<string, Tree>) returns (dst: Option<Tree>)
    ensures exists order :: Rebuilt(src, dst, order)
  {
    hide Insert, Unflattened;
    var keys := src.Keys;
    ghost var order: seq<string> := [];
    dst := Some(Dict(map[]));
    NothingUnflattened(Entries(src, order));
    while keys != {} && dst.Some?
      invariant keys <= src.Keys && forall k :: k in order <==> k in src && k !in keys
      invariant forall i, j :: 0 <= i < j < |order| ==> order[i] != order[j]
      invariant dst == Unflattened(Dict(map[]), Entries(src, order))
      decreases |keys|
    {
      var k :| k in keys;
      keys := keys - {k};
      ghost var es, e := Entries(src, order), Entry(ReadPath(k), src[k]);
      dst := Insert(dst.value, ReadPath(k), src[k]);
      UnflattenedThen(Dict(map[]), es, e);
      order := order + [k];
      assert Entries(src, order) == es + [e];
    }
    assert Rebuilt(src, dst, order);
  }

  lemma NothingUnflattened(es: seq<Entry>)
    requires es == []
    ensures Unflattened(Dict(map[]), es) == Some(Dict(map[]))
  {
  }

  /** Flat items are scalars of the tree. */
  lemma FlatEntries(t: Tree, m: map<string, Tree>, order: seq<string>)
    requires Flat(t, m) && InOrder(m, order)
    ensures var es := Entries(m, order);
            && (forall e {:trigger e in es} :: e in es ==> LeafAt(t, e.path) == Some(e.v))
            && (forall i, j {:trigger es[i], es[j]} :: 0 <= i < j < |es| ==> es[i].path != es[j].path)
  {
    hide LeafAt, ReadPath, Joined;
    var es := Entries(m, order);
    forall e | e in es ensures LeafAt(t, e.path) == Some(e.v) {
      var i :| 0 <= i < |es| && es[i] == e;
      assert order[i] in order && order[i] in m;
    }
    forall i, j | 0 <= i < j < |es| ensures es[i].path != es[j].path {
      assert order[i] in order && order[j] in order && order[i] in m && order[j] in m;
      assert HasKey(t, order[i]) && HasKey(t, order[j]);
    }
  }

  /** All the flat items of a tree are all its scalars, whatever the order. */
  lemma FlatEnumerates(t: Tree, m: map<string, Tree>, order: seq<string>)
    requires t.Dict? && PlainKeys(t) && Flat(t, m) && InOrder(m, order) && forall k :: k in m ==> k in order
    ensures Enumerates(t, Entries(m, order))
  {
    hide PlainKeys, LeafAt, ReadPath, Joined;
    var es := Entries(m, order);
    FlatEntries(t, m, order);
    forall q | LeafAt(t, q).Some? ensures exists e :: e in es && e.path == q {
      DictLeaf(t, q);
      LeafPathsPlain(t, q);
      PathRoundTrip(q);
      assert Joined(q) in order;
      var i :| 0 <= i < |order| && order[i] == Joined(q);
      assert es[i] in es && es[i].path == q;
    }
  }

  lemma DictLeaf(t: Tree, q: Path)
    requires t.Dict? && LeafAt(t, q).Some?
    ensures q != []
  {
  }

  lemma NeverFails(t: Tree, es: seq<Entry>)
    requires t.Dict? && Full(t) && forall e {:trigger e in es} :: e in es ==> LeafAt(t, e.path) == Some(e.v)
    requires forall i, j {:trigger es[i], es[j]} :: 0 <= i < j < |es| ==> es[i].path != es[j].path
    ensures forall e :: e in es ==> e.path != []
    ensures SingleElements(t) ==> Unflattened(Dict(map[]), es).Some?
  {
    forall e | e in es ensures e.path != [] { DictLeaf(t, e.path); }
    if SingleElements(t) { BuildsAll(Dict(map[]), t, {}, es); }
  }

  /** Flattens a record and rebuilds it: it comes back as it was exactly when no list element holds more than
      one scalar. */
  method FlattenAndBack(t: Tree) returns (back: Option<Tree>)
    requires t.Dict? && Full(t) && PlainKeys(t)
    ensures back == Some(t) <==> SingleElements(t)
  {
    hide Flat, Full, PlainKeys, SingleElements, Enumerates, Unflattened;
    var flat := Flatten(t);
    back := Unflatten(flat.d);
    ghost var order :| Rebuilt(flat.d, back, order);
    if back.Some? {
      FlatEnumerates(t, flat.d, order);
      UnflattenExactly(t, Entries(flat.d, order));
    } else {
      FlatEntries(t, flat.d, order);
      NeverFails(t, Entries(flat.d, order));
    }
  }
}
