/** The codec as a whole: what is encoded is what is decoded, whichever encoder and decoder are put together. */
module Codec {
  import opened Wire
  import opened Schema
  import opened Format
  import opened Parser
  import opened RoundTrip
  import opened PyObjects
  import opened Encoder
  import opened EncoderRuns
  import opened DictEncoder
  import DictDecoder
  import DictBuilder
  import Decoder

  /** The two encoders agree. For every object that can be encoded, the stack encoder's calls for its fields, in
      descriptor order, succeed in every buffer of the dry run's size, and leave there the bytes that the recursive
      two-pass encoder returns. */
  lemma EncodersAgree(descs: Descs, m: nat, obj: PyObj, len: nat)
    requires Encodable(descs, m, obj) && Height(ItemsOf(descs, m, obj)) < MAX_DEPTH
    requires Dry(ItemsOf(descs, m, obj)) <= len < TWO35
    ensures var items := ItemsOf(descs, m, obj);
            && LegalRun(descs, Started(m, len), Ops(items))
            && Run(descs, Started(m, len), Ops(items)).Next?
            && Run(descs, Started(m, len), Ops(items)).st.levels == [Level(None, Some(m), Enc(items))]
  {
    hide Ops, Enc, Need, Dry, Height, ItemsOf, Encodable, LegalRun, Run;
    var items := ItemsOf(descs, m, obj);
    ObjectDeclared(descs, m, obj);
    DrySuffices(items);
    EncodeTree(descs, m, len, items);
  }

  /** Encodes an object with both encoders: the same bytes. */
  method EncodeBothWays(e: Encoder, enc: Encoder2, m: nat, obj: PyObj, data: array<byte>, ops: seq<Op>)
    returns (size: nat, bytes: seq<byte>)
    requires e.stack.Length == MAX_DEPTH && Encodable(e.descs, m, obj) && ops == Ops(ItemsOf(e.descs, m, obj))
    requires Height(ItemsOf(e.descs, m, obj)) < MAX_DEPTH
    requires Dry(ItemsOf(e.descs, m, obj)) <= data.Length < TWO35
    modifies e, e.stack, data, enc
    ensures size <= data.Length && data[..size] == bytes
  {
    hide Ops, Enc, Need, Dry, Height, ItemsOf, Encodable;
    ghost var items := ItemsOf(e.descs, m, obj);
    ObjectDeclared(e.descs, m, obj);
    DrySuffices(items);
    var err;
    err, size := EncodeMessage(e, m, data, data.Length, items, ops);
    bytes := Encode(enc, e.descs, m, obj);
  }

  lemma ObjectDeclared(descs: Descs, m: nat, obj: PyObj)
    requires Encodable(descs, m, obj)
    ensures Declared(descs, m, ItemsOf(descs, m, obj))
  {
    ItemsDeclared(descs, m, obj, |FieldsOf(descs, m)|);
  }

  /** Encodes a message tree with the stack encoder and decodes the result: the handlers see exactly the tree, in
      encoding order, and all bytes are used. */
  method Transmit(e: Encoder, d: Decoder.Decoder, m: nat, data: array<byte>, ghost items: seq<Item>, ops: seq<Op>)
    returns (err: Err, used: nat)
    requires e.stack.Length == MAX_DEPTH && d.stack.Length == MAX_DEPTH && e.descs == d.descs
    requires data.Length < TWO35 && NumbersOk(e.descs)
    requires Shaped(items) && Declared(e.descs, m, items) && Height(items) < MAX_DEPTH && ops == Ops(items)
    modifies e, e.stack, d, d.stack, data
    ensures err == if Need(items) <= data.Length then Ok else EndOfBuf
    ensures err.Ok? ==> used == |Enc(items)| && d.trace == MessageEvents(m, items)
  {
    hide Ops, Enc, Need, Height, Shaped, Declared, NumbersOk, Parse, MessageEvents;
    var size;
    used := 0;
    err, size := EncodeMessage(e, m, data, data.Length, items, ops);
    if err.Ok? {
      MessageRoundTrip(d.descs, m, items, true);
      err, used := d.Decode(m, data[..size]);
    }
  }

  /** Encodes a Python object with the two-pass encoder and decodes the result into a new one: the object comes
      back as it was exactly when it is a normal dict. */
  method DumpAndLoad(enc: Encoder2, b: DictBuilder.DictBuilder, d: Decoder.Decoder, m: nat, x: PyObj)
    returns (dst: Option<nat>, ghost at: DictDecoder.Locs)
    requires d.stack.Length == MAX_DEPTH
    requires NumbersOk(d.descs) && DictDecoder.NamesOk(d.descs)
    requires Encodable(d.descs, m, x)
    requires Height(ItemsOf(d.descs, m, x)) < MAX_DEPTH && Dry(ItemsOf(d.descs, m, x)) < TWO35
    modifies enc, b, d, d.stack
    ensures dst == Some(0) && b.stack == []
    ensures DictDecoder.Tree(b.store, b.next, at) && 0 in b.store
            && (DictDecoder.Read(b.store, b.next, at, 0) == x <==> DictDecoder.Normal(d.descs, m, x))
  {
    hide Enc, Dry, Height, ItemsOf, Encodable, NumbersOk, Parse, MessageEvents, DictDecoder.NamesOk,
         DictDecoder.Normal, DictDecoder.Read, DictDecoder.Tree, DictDecoder.Handle;
    ghost var items := ItemsOf(d.descs, m, x);
    var bytes := Encode(enc, d.descs, m, x);
    DrySuffices(items);
    ObjectDeclared(d.descs, m, x);
    MessageRoundTrip(d.descs, m, items, true);
    at := DictDecoder.DictRoundTrip(d.descs, m, x);
    dst := b.Decode(d, m, bytes);
  }
}
