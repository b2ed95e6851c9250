/** What the bytes of an encoded object are, from the object and the fields' options alone: field by field in
    declaration order, value by value in list order. */
module ObjectBytes {
  import opened Wire
  import opened Schema
  import opened Scalars
  import opened Format
  import opened PyObjects
  import opened DictEncoder

  /** The values under a name: a list's elements, or a single value. */
  function Given(x: PyObj): seq<PyObj> {
    if x.PyList? then x.xs else [x]
  }

  ghost predicate SuitsOne(descs: Descs, f: Field, v: PyObj) {
    if f.typ.Message? then Encodable(descs, f.msg, v) else v.PyScalar? && Fits(f.typ, v.v)
  }

  ghost predicate SuitsAll(descs: Descs, f: Field, vs: seq<PyObj>) {
    forall j :: 0 <= j < |vs| ==> SuitsOne(descs, f, vs[j])
  }

  /** A value on its own. */
  ghost function Bare(descs: Descs, f: Field, v: PyObj): (w: WireValue)
    requires SuitsOne(descs, f, v)
  {
    if f.typ.Message? then WString(Enc(ItemsOf(descs, f.msg, v))) else ToWire(f.typ, v.v)
  }

  /** Every value with its own key. */
  ghost function KeyedRecords(descs: Descs, f: Field, vs: seq<PyObj>): (rs: seq<seq<byte>>)
    requires SuitsAll(descs, f, vs)
    ensures |rs| == |vs| && forall j :: 0 <= j < |vs| ==> rs[j] == Record(f, Bare(descs, f, vs[j]))
  {
    seq(|vs|, j requires 0 <= j < |vs| => Record(f, Bare(descs, f, vs[j])))
  }

  /** Every value without a key. */
  ghost function BareValues(descs: Descs, f: Field, vs: seq<PyObj>): (rs: seq<seq<byte>>)
    requires SuitsAll(descs, f, vs)
    ensures |rs| == |vs| && forall j :: 0 <= j < |vs| ==> rs[j] == EncWire(Bare(descs, f, vs[j]))
  {
    seq(|vs|, j requires 0 <= j < |vs| => EncWire(Bare(descs, f, vs[j])))
  }

  lemma SuitsGiven(descs: Descs, f: Field, x: PyObj)
    requires Suits(descs, f, x)
    ensures |Given(x)| == Count(x) && SuitsAll(descs, f, Given(x))
    ensures forall j :: 0 <= j < Count(x) ==> Element(x, j) == Given(x)[j]
  {
    hide Encodable, Fits;
    forall j | 0 <= j < |Given(x)| ensures SuitsOne(descs, f, Given(x)[j]) {
      assert Element(x, j) == Given(x)[j];
    }
  }

  lemma KeyedNext(descs: Descs, f: Field, vs: seq<PyObj>, v: PyObj)
    requires SuitsAll(descs, f, vs) && SuitsOne(descs, f, v)
    ensures SuitsAll(descs, f, vs + [v])
    ensures KeyedRecords(descs, f, vs + [v]) == KeyedRecords(descs, f, vs) + [Record(f, Bare(descs, f, v))]
    ensures BareValues(descs, f, vs + [v]) == BareValues(descs, f, vs) + [EncWire(Bare(descs, f, v))]
  {
    hide SuitsOne, Record, EncWire, Bare;
    forall j | 0 <= j <= |vs| ensures SuitsOne(descs, f, (vs + [v])[j]) {
      if j < |vs| { assert (vs + [v])[j] == vs[j]; }
    }
  }

  lemma FirstOnes(descs: Descs, f: Field, vs: seq<PyObj>, n: nat)
    requires SuitsAll(descs, f, vs) && 0 < n <= |vs|
    ensures SuitsAll(descs, f, vs[..n - 1]) && SuitsOne(descs, f, vs[n - 1]) && vs[..n] == vs[..n - 1] + [vs[n - 1]]
  {
    hide SuitsOne;
  }

  /** A field that is not both repeated and declared packed: one keyed record for each value, numbers included. */
  lemma {:induction false} RecordForEachValue(descs: Descs, f: Field, x: PyObj, n: nat)
    requires Suits(descs, f, x) && !(f.rule.Repeated? && f.packed) && n <= Count(x)
    ensures n <= |Given(x)| && SuitsAll(descs, f, Given(x)[..n])
    ensures Enc(ValueItems(descs, f, x, n)) == Joined(KeyedRecords(descs, f, Given(x)[..n]))
    decreases n
  {
    hide EncValues, PackedValues, ValueItems, Enc, KeyedRecords, BareValues, Joined, SuitsOne;
    SuitsGiven(descs, f, x);
    var vs := Given(x);
    if n == 0 {
      NoValues(descs, f, x);
      assert vs[..0] == [];
    } else {
      RecordForEachValue(descs, f, x, n - 1);
      FirstOnes(descs, f, vs, n);
      LastRecord(descs, f, x, n);
      KeyedNext(descs, f, vs[..n - 1], vs[n - 1]);
      hide *;
      JoinedNext(KeyedRecords(descs, f, vs[..n - 1]), Record(f, Bare(descs, f, vs[n - 1])));
    }
  }

  lemma NoValues(descs: Descs, f: Field, x: PyObj)
    ensures Suits(descs, f, x) && !(f.rule.Repeated? && f.packed) ==> Enc(ValueItems(descs, f, x, 0)) == []
    ensures Suits(descs, f, x) && PackedField(f) ==> EncValues(f.typ, PackedValues(descs, f, x, 0)) == []
    ensures SuitsAll(descs, f, []) && Joined(KeyedRecords(descs, f, [])) == [] && Joined(BareValues(descs, f, [])) == []
  {
  }

  lemma LastRecord(descs: Descs, f: Field, x: PyObj, n: nat)
    requires Suits(descs, f, x) && !(f.rule.Repeated? && f.packed) && 0 < n <= Count(x)
    requires |Given(x)| == Count(x) && SuitsOne(descs, f, Given(x)[n - 1]) && Element(x, n - 1) == Given(x)[n - 1]
    ensures Enc(ValueItems(descs, f, x, n))
            == Enc(ValueItems(descs, f, x, n - 1)) + Record(f, Bare(descs, f, Given(x)[n - 1]))
  {
    hide Record, ToWire, Encodable, Fits, Enc, Shaped;
    var before, it := ValueItems(descs, f, x, n - 1), ValueItems(descs, f, x, n)[n - 1];
    assert ValueItems(descs, f, x, n) == before + [it];
    hide ValueItems;
    LastShaped(before, it);
    OneItem(it);
    EncConcat(before, [it]);
  }

  lemma LastShaped(before: seq<Item>, it: Item)
    requires Shaped(before + [it])
    ensures ShapedItem(it) && Shaped([it])
  {
    assert (before + [it])[|before|] == it;
  }

  /** A repeated field that is declared packed: one record, with the values and without their keys. */
  lemma {:induction false} ValuesInOneRecord(descs: Descs, f: Field, x: PyObj, n: nat)
    requires Suits(descs, f, x) && f.rule.Repeated? && f.packed && n <= Count(x)
    ensures PackedField(f) && n <= |Given(x)| && SuitsAll(descs, f, Given(x)[..n])
    ensures EncValues(f.typ, PackedValues(descs, f, x, n)) == Joined(BareValues(descs, f, Given(x)[..n]))
    decreases n
  {
    hide EncValues, PackedValues, ValueItems, Enc, KeyedRecords, BareValues, Joined, SuitsOne;
    SuitsGiven(descs, f, x);
    var vs := Given(x);
    if n == 0 {
      NoValues(descs, f, x);
      assert vs[..0] == [];
    } else {
      ValuesInOneRecord(descs, f, x, n - 1);
      FirstOnes(descs, f, vs, n);
      LastValue(descs, f, x, n);
      KeyedNext(descs, f, vs[..n - 1], vs[n - 1]);
      hide *;
      JoinedNext(BareValues(descs, f, vs[..n - 1]), EncWire(Bare(descs, f, vs[n - 1])));
    }
  }

  lemma LastValue(descs: Descs, f: Field, x: PyObj, n: nat)
    requires Suits(descs, f, x) && PackedField(f) && 0 < n <= Count(x)
    requires |Given(x)| == Count(x) && SuitsOne(descs, f, Given(x)[n - 1]) && Element(x, n - 1) == Given(x)[n - 1]
    ensures EncValues(f.typ, PackedValues(descs, f, x, n))
            == EncValues(f.typ, PackedValues(descs, f, x, n - 1)) + EncWire(Bare(descs, f, Given(x)[n - 1]))
  {
    hide ToWire, EncWire, Fits, Encodable, EncValues, PackedValues;
    ElementsRoom(descs, f, x, n - 1, n);
  }

  /** The bytes of a field. */
  ghost function FieldPart(descs: Descs, f: Field, x: PyObj): seq<byte>
    requires Suits(descs, f, x)
  {
    SuitsGiven(descs, f, x);
    if f.rule.Repeated? && f.packed then Record(f, WString(Joined(BareValues(descs, f, Given(x)))))
    else Joined(KeyedRecords(descs, f, Given(x)))
  }

  lemma FieldIsItsPart(descs: Descs, f: Field, x: PyObj)
    requires Suits(descs, f, x)
    ensures Enc(FieldItems(descs, f, x)) == FieldPart(descs, f, x)
  {
    hide Suits, Record, EncWire, Enc, ValueItems, PackedValues, EncValues;
    SuitsGiven(descs, f, x);
    assert Given(x)[..Count(x)] == Given(x);
    if f.rule.Repeated? && f.packed {
      ValuesInOneRecord(descs, f, x, Count(x));
      OneItem(Packed(f, PackedValues(descs, f, x, Count(x))));
    } else {
      RecordForEachValue(descs, f, x, Count(x));
    }
  }

  /** The bytes of every declared field, none for a field that is not there. */
  ghost function FieldParts(descs: Descs, m: nat, obj: PyObj, n: nat): (parts: seq<seq<byte>>)
    requires Encodable(descs, m, obj) && n <= |FieldsOf(descs, m)|
    ensures |parts| == n
    ensures forall i :: 0 <= i < n ==>
              var f := FieldsOf(descs, m)[i];
              parts[i] == if f.name in obj.d then FieldPart(descs, f, obj.d[f.name]) else []
  {
    seq(n, i requires 0 <= i < n =>
           var f := FieldsOf(descs, m)[i];
           if f.name in obj.d then FieldPart(descs, f, obj.d[f.name]) else [])
  }

  /** The encoding of an object is its fields' bytes in the order the fields are declared in. */
  lemma ObjectIsItsFields(descs: Descs, m: nat, obj: PyObj)
    requires Encodable(descs, m, obj)
    ensures Enc(ItemsOf(descs, m, obj)) == Joined(FieldParts(descs, m, obj, |FieldsOf(descs, m)|))
  {
    FirstFieldsParts(descs, m, obj, |FieldsOf(descs, m)|);
  }

  lemma {:induction false} FirstFieldsParts(descs: Descs, m: nat, obj: PyObj, n: nat)
    requires Encodable(descs, m, obj) && n <= |FieldsOf(descs, m)|
    ensures Enc(FieldsItems(descs, m, obj, n)) == Joined(FieldParts(descs, m, obj, n))
    decreases n
  {
    if n == 0 {
      EncNothing();
    } else {
      FirstFieldsParts(descs, m, obj, n - 1);
      NextItems(descs, m, obj, n);
      PartsNext(descs, m, obj, n);
      hide *;
      JoinedNext(FieldParts(descs, m, obj, n - 1), FieldParts(descs, m, obj, n)[n - 1]);
    }
  }

  lemma PartsNext(descs: Descs, m: nat, obj: PyObj, n: nat)
    requires Encodable(descs, m, obj) && 0 < n <= |FieldsOf(descs, m)|
    ensures FieldParts(descs, m, obj, n) == FieldParts(descs, m, obj, n - 1) + [FieldParts(descs, m, obj, n)[n - 1]]
  {
    assert obj.PyDict?;
    hide *;
    var parts, before := FieldParts(descs, m, obj, n), FieldParts(descs, m, obj, n - 1);
    forall i | 0 <= i < n - 1 ensures parts[i] == before[i] {
    }
  }

  lemma NextItems(descs: Descs, m: nat, obj: PyObj, n: nat)
    requires Encodable(descs, m, obj) && 0 < n <= |FieldsOf(descs, m)|
    ensures Enc(FieldsItems(descs, m, obj, n))
            == Enc(FieldsItems(descs, m, obj, n - 1)) + FieldParts(descs, m, obj, n)[n - 1]
  {
    assert obj.PyDict?;
    var f := FieldsOf(descs, m)[n - 1];
    if f.name in obj.d { NamedSuits(descs, m, obj, f); }
    hide Encodable, Enc, FieldItems, FieldPart, Shaped, Suits;
    var before := FieldsItems(descs, m, obj, n - 1);
    var part := FieldParts(descs, m, obj, n)[n - 1];
    if f.name in obj.d {
      var items := FieldItems(descs, f, obj.d[f.name]);
      assert FieldsItems(descs, m, obj, n) == before + items;
      hide FieldsItems;
      FieldIsItsPart(descs, f, obj.d[f.name]);
      EncConcat(before, items);
    } else {
      assert part == [];
    }
  }

  lemma EncNothing()
    ensures Enc([]) == []
  {
  }

  lemma NamedSuits(descs: Descs, m: nat, obj: PyObj, f: Field)
    requires Encodable(descs, m, obj) && f in FieldsOf(descs, m) && f.name in obj.d
    ensures Suits(descs, f, obj.d[f.name])
  {
  }
}
