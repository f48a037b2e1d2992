/** Static repeated fields: how one record moves the counter, and why packed blocks
    and single elements may be mixed at will. */
module Arrays {
  import opened Bits
  import opened Varint
  import opened Descriptor
  import opened Scalars
  import opened FieldIterator
  import opened Allocator
  import Release
  import opened EncodeSpec
  import DecodeSpec
  import opened Locality
  import opened Merge

  // ----------------------------------------------------------- one key, one chunk

  /** The decoder reads back the key of any field. */
  lemma KeyRoundTrip(wire: nat, tag: nat, t: seq<Byte>)
    requires wire < 8 && 1 <= tag < 0x2000_0000
    ensures DecodeSpec.DecodeTag(EncKey(wire, tag) + t) == DecodeSpec.Tag(tag, wire, t)
  {
    hide Varint32, EncVarint;
    RoundTrip32(8 * tag + wire, t);
  }

  lemma StringParsed(b: seq<Byte>, t: seq<Byte>)
    requires |b| < TWO32
    ensures Varint32(EncString(b) + t) == Got(|b|, b + t)
    ensures (b + t)[..|b|] == b && (b + t)[|b|..] == t
  {
    RoundTrip32(|b|, b + t);
    U32Small(|b|);
    assert EncString(b) + t == EncVarint(|b|) + (b + t);
  }

  /** A length-delimited chunk is taken apart as it was put together. */
  lemma ChunkRoundTrip(b: seq<Byte>, t: seq<Byte>)
    requires |b| < TWO32
    ensures DecodeSpec.Delimited(EncString(b) + t) == DecodeSpec.Chunk(b, t)
  {
    RoundTrip32(|b|, b + t);
    U32Small(|b|);
    assert EncString(b) + t == EncVarint(|b|) + (b + t);
    assert (b + t)[..|b|] == b && (b + t)[|b|..] == t;
  }

  lemma TagFound(sch: Schema, sid: nat, i: nat)
    requires WfSchema(sch) && sid < |sch| && i < |sch[sid]|
    ensures FirstMatch(sch[sid], sch[sid][i].tag, 0) == i && 1 <= sch[sid][i].tag < 0x2000_0000
  {
    assert WfMessage(sch, sid) && OkField(sch, sid, i);
    MatchIsUnique(sch[sid], sch[sid][i].tag, i);
  }

  /** A record with the key of field `i` is handed to that field. */
  lemma RecordOfField(sch: Schema, sid: nat, i: nat, wire: nat, p: seq<Byte>, run: DecodeSpec.Run)
    requires WfSchema(sch) && sid < |sch| && i < |sch[sid]| && wire < 8
    ensures DecodeSpec.Record(sch, sid, EncKey(wire, sch[sid][i].tag) + p, run) ==
            DecodeSpec.KnownRecord(sch, sid, i, wire, p, run)
  {
    TagFound(sch, sid, i);
    KeyRoundTrip(wire, sch[sid][i].tag, p);
  }

  // ------------------------------------------------------------------- counting

  /** The decoder will store the next element of field `i` at index `k`. A field
      without a counter in the struct uses the local one, which starts at zero
      when the previous such field is complete. */
  predicate Ready(fs: seq<Field>, run: DecodeSpec.Run, i: nat, k: nat)
    requires i < |fs|
  {
    if DecodeSpec.FixedCount(fs[i]) then
      (run.fixed == i && run.fixedSize == k) || (run.fixed != i && k == 0 && DecodeSpec.FixedDone(fs, run))
    else CellOf(fs, run.store, i).size == Num(k)
  }

  /** One record of a repeated field is a step on its data with index `k`. */
  lemma RepeatedRecord(sch: Schema, sid: nat, i: nat, wire: nat, s: seq<Byte>, run: DecodeSpec.Run, k: nat)
    requires WfSchema(sch) && sid < |sch| && i < |sch[sid]|
    requires sch[sid][i].htype.Repeated? && Ready(sch[sid], run, i, k)
    ensures var fs := sch[sid];
            var o := DecodeSpec.FieldStep(sch, sid, i, wire, s, Cell(CellOf(fs, run.store, i).data, Num(k)), run.heap);
            var r := DecodeSpec.KnownRecord(sch, sid, i, wire, s, run);
            && r.ok == o.ok && r.rest == o.rest && !r.stopped
            && r.run.store == PutCell(fs, run.store, i, o.cell) && r.run.heap == o.heap && r.run.seen == run.seen
            && (DecodeSpec.FixedCount(fs[i]) ==> r.run.fixed == i && r.run.fixedSize == Number(o.cell.size))
            && (!DecodeSpec.FixedCount(fs[i]) ==> r.run.fixed == run.fixed && r.run.fixedSize == run.fixedSize)
  {
    assert run.seen + DecodeSpec.Seen(sch[sid], i) == run.seen;
  }

  lemma StillReady(sch: Schema, sid: nat, i: nat, run: DecodeSpec.Run, data: Slot, k: nat, m: Store)
    requires WfSchema(sch) && sid < |sch| && i < |sch[sid]|
    requires run.store == PutCell(sch[sid], m, i, Cell(data, Num(k)))
    requires DecodeSpec.FixedCount(sch[sid][i]) ==> run.fixed == i && run.fixedSize == k
    requires sch[sid][i].htype.Repeated?
    ensures Ready(sch[sid], run, i, k) && CellOf(sch[sid], run.store, i).data == data
  {
    assert WfMessage(sch, sid);
    PutThenGet(sch, sid, m, i, Cell(data, Num(k)));
  }

  lemma PutTwice(fs: seq<Field>, m: Store, i: nat, a: Cell, b: Cell)
    ensures PutCell(fs, PutCell(fs, m, i, a), i, b) == PutCell(fs, m, i, b)
  {
  }

  // ------------------------------------------------------------ packed payloads

  /** Elements back to back. */
  function EncNums(f: Field, es: seq<int>): seq<Byte> {
    if es == [] then [] else EncScalar(f, Num(es[0])).out + EncNums(f, es[1..])
  }

  /** `items` with `es` stored from index `k` on. */
  function Write(items: seq<Slot>, k: nat, es: seq<int>): (r: seq<Slot>)
    ensures |r| == |items|
    decreases |es|
  {
    if es == [] then items else Write(SetItem(items, k, Num(es[0])), k + 1, es[1..])
  }

  lemma {:induction false} WriteAt(items: seq<Slot>, k: nat, es: seq<int>, j: nat)
    requires k + |es| <= |items| && j < |items|
    ensures Write(items, k, es)[j] == if k <= j < k + |es| then Num(es[j - k]) else items[j]
    decreases |es|
  {
    if es == [] {
    } else {
      WriteAt(SetItem(items, k, Num(es[0])), k + 1, es[1..], j);
    }
  }

  lemma {:induction false} WriteConcat(items: seq<Slot>, k: nat, a: seq<int>, b: seq<int>)
    ensures Write(items, k, a + b) == Write(Write(items, k, a), k + |a|, b)
    decreases |a|
  {
    if a == [] {
      assert a + b == b;
    } else {
      assert (a + b)[1..] == a[1..] + b;
      WriteConcat(SetItem(items, k, Num(a[0])), k + 1, a[1..], b);
    }
  }

  /** `s` is read as `es`: scalar after scalar, in any form the decoder accepts, to
      the last byte. */
  predicate Reads(f: Field, s: seq<Byte>, es: seq<int>)
    decreases |es|
  {
    if es == [] then s == []
    else
      var d := DecScalar(f, s, Undef);
      d.ok && d.slot == Num(es[0]) && Reads(f, d.rest, es[1..])
  }

  predicate AllInRange(f: Field, es: seq<int>) {
    forall j :: 0 <= j < |es| ==> InRange(f, es[j])
  }

  /** The encoder's own form is one of them. */
  lemma {:induction false} EncodedReads(f: Field, es: seq<int>)
    requires WfWidth(f) && AllInRange(f, es)
    ensures Reads(f, EncNums(f, es), es)
  {
    if es == [] {
    } else {
      ScalarRoundTrip(f, es[0], EncNums(f, es[1..]), Undef);
      EncodedReads(f, es[1..]);
    }
  }

  /** A packed payload fills the array from the counter on; elements that do not
      fit are left in the block. */
  lemma {:induction false} PackedReads(f: Field, s: seq<Byte>, es: seq<int>, items: seq<Slot>, k: nat)
    requires Reads(f, s, es) && k <= f.arraySize
    ensures var p := DecodeSpec.PackedItems(f, s, items, k);
            if k + |es| <= f.arraySize then p == DecodeSpec.ArrayOut(true, [], Write(items, k, es), k + |es|)
            else p.rest != []
    decreases |es|
  {
    hide DecScalar;
    if es == [] {
    } else if k < f.arraySize {
      SameScalar(f, s, ItemAt(items, k), Undef);
      PackedReads(f, DecScalar(f, s, Undef).rest, es[1..], SetItem(items, k, Num(es[0])), k + 1);
    }
  }

  /** `s` starts with the elements `es`, in any form the decoder accepts, and goes on with
      `rest`. */
  predicate StartsWith(f: Field, s: seq<Byte>, es: seq<int>, rest: seq<Byte>)
    decreases |es|
  {
    if es == [] then s == rest
    else
      var d := DecScalar(f, s, Undef);
      d.ok && d.slot == Num(es[0]) && StartsWith(f, d.rest, es[1..], rest)
  }

  lemma IsNumber(f: Field, s: seq<Byte>)
    requires Packable(f.ltype) && DecScalar(f, s, Undef).ok
    ensures DecScalar(f, s, Undef).slot.Num?
  {
    hide Varint32, Varint64;
  }

  /** The entries `es` follow the first `k`, and no entry beyond the next one changed. */
  predicate StoredFrom(items: seq<Slot>, k: nat, es: seq<int>, now: seq<Slot>) {
    && |now| == |items| && k + |es| <= |items| && now[..k] == items[..k]
    && (forall j :: 0 <= j < |es| ==> now[k + j] == Num(es[j]))
    && (forall j :: k + |es| < j < |items| ==> now[j] == items[j])
  }

  lemma StoredStep(items: seq<Slot>, k: nat, e: int, es: seq<int>, now: seq<Slot>)
    requires k < |items| && StoredFrom(items[k := Num(e)], k + 1, es, now)
    ensures StoredFrom(items, k, [e] + es, now)
  {
    var next := items[k := Num(e)];
    assert now[..k] == now[..k + 1][..k] == next[..k + 1][..k] == items[..k];
    assert now[k] == now[..k + 1][k] == next[..k + 1][k];
    forall j | 0 <= j < |es| + 1 ensures now[k + j] == Num(([e] + es)[j]) {
      assert j > 0 ==> now[k + 1 + (j - 1)] == Num(es[j - 1]);
    }
  }

  /** A packed payload of any bytes: the loop stops at the end, at the end of the array or
      at the first thing that is no element, and has stored and counted what lies before. */
  lemma {:induction false} PackedStops(f: Field, s: seq<Byte>, items: seq<Slot>, k: nat) returns (es: seq<int>)
    requires Packable(f.ltype) && k <= f.arraySize == |items|
    ensures var p := DecodeSpec.PackedItems(f, s, items, k);
            && StartsWith(f, s, es, p.rest) && p.count == k + |es| && StoredFrom(items, k, es, p.items)
            && (p.ok <==> p.rest == [] || p.count == f.arraySize)
            && (!p.ok ==> !DecScalar(f, p.rest, Undef).ok)
    decreases |s|
  {
    hide DecScalar;
    es := [];
    if s != [] && k < f.arraySize {
      var d := DecScalar(f, s, ItemAt(items, k));
      SameScalar(f, s, ItemAt(items, k), Undef);
      if d.ok {
        IsNumber(f, s);
        var more := PackedStops(f, d.rest, SetItem(items, k, d.slot), k + 1);
        var now := DecodeSpec.PackedItems(f, s, items, k).items;
        StoredStep(items, k, d.slot.n, more, now);
        es := [d.slot.n] + more;
        assert es[1..] == more;
      }
    }
  }

  /** The same for the record: it is accepted exactly when its length and its bytes are
      there and the elements reach to the end of the block. */
  lemma BlockStops(f: Field, s: seq<Byte>, items: seq<Slot>, k: nat, h: Heap) returns (es: seq<int>, rest: seq<Byte>)
    requires Packable(f.ltype) && k <= f.arraySize == |items|
    ensures var c, o := DecodeSpec.Delimited(s), DecodeSpec.StaticPacked(f, s, Cell(Arr(items), Num(k)), h);
            if c.NoChunk? then o == DecodeSpec.StepOut(false, s, Cell(Arr(items), Num(k)), h)
            else
              && StartsWith(f, c.body, es, rest) && (o.ok <==> rest == []) && (o.ok ==> o.rest == c.rest)
              && (rest != [] ==> k + |es| == f.arraySize || !DecScalar(f, rest, Undef).ok)
              && o.cell.data.Arr? && StoredFrom(items, k, es, o.cell.data.items)
              && o.cell.size == Num(k + |es|) && o.heap == h
  {
    hide DecScalar, DecodeSpec.Delimited, DecodeSpec.PackedItems;
    es, rest := [], [];
    var c := DecodeSpec.Delimited(s);
    if c.Chunk? {
      es := PackedStops(f, c.body, items, k);
      rest := DecodeSpec.PackedItems(f, c.body, items, k).rest;
    }
  }

  // -------------------------------------------------------------------- mixtures

  /** `rec` is one record of the repeated scalar `f` that carries `es`: a packed block
      or a single element, with its key, its length and its values in any form the
      decoder accepts. */
  predicate Carries(f: Field, rec: seq<Byte>, es: seq<int>) {
    var t := DecodeSpec.DecodeTag(rec);
    && t.Tag? && t.number == f.tag
    && (if t.wire == WT_STRING then CarriesBlock(f, t.rest, es) else CarriesOne(f, t.rest, es))
  }

  predicate CarriesBlock(f: Field, payload: seq<Byte>, es: seq<int>) {
    var c := DecodeSpec.Delimited(payload);
    c.Chunk? && c.rest == [] && Reads(f, c.body, es)
  }

  predicate CarriesOne(f: Field, payload: seq<Byte>, es: seq<int>) {
    var d := DecScalar(f, payload, Undef);
    |es| == 1 && d.ok && d.rest == [] && d.slot == Num(es[0])
  }

  datatype Part = Part(record: seq<Byte>, elems: seq<int>)

  function AllElems(parts: seq<Part>): seq<int> {
    if parts == [] then [] else parts[0].elems + AllElems(parts[1..])
  }

  function PartsBytes(parts: seq<Part>): seq<Byte> {
    if parts == [] then [] else parts[0].record + PartsBytes(parts[1..])
  }

  predicate ValidParts(f: Field, parts: seq<Part>) {
    parts == [] || (Carries(f, parts[0].record, parts[0].elems) && ValidParts(f, parts[1..]))
  }

  /** The packed field as the encoder sends it. */
  function PackedRecord(f: Field, es: seq<int>): seq<Byte> {
    EncKey(WT_STRING, f.tag) + EncString(EncNums(f, es))
  }

  lemma EncodedCarries(f: Field, es: seq<int>)
    requires 1 <= f.tag < 0x2000_0000 && WfWidth(f) && AllInRange(f, es) && |EncNums(f, es)| < TWO32
    ensures Carries(f, PackedRecord(f, es), es)
  {
    var block := EncString(EncNums(f, es));
    KeyRoundTrip(WT_STRING, f.tag, block);
    ChunkRoundTrip(EncNums(f, es), []);
    assert block + [] == block;
    EncodedReads(f, es);
  }

  predicate ScalarArray(sch: Schema, sid: nat, i: nat)
    requires WfSchema(sch) && sid < |sch| && i < |sch[sid]|
  {
    sch[sid][i].htype.Repeated? && sch[sid][i].atype.Static? && Packable(sch[sid][i].ltype)
  }

  lemma RepeatedStep(sch: Schema, sid: nat, i: nat, wire: nat, s: seq<Byte>, c: Cell, h: Heap)
    requires WfSchema(sch) && sid < |sch| && i < |sch[sid]|
    requires sch[sid][i].htype.Repeated? && sch[sid][i].atype.Static?
    ensures WfMessage(sch, sid) && OkField(sch, sid, i)
    ensures DecodeSpec.FieldStep(sch, sid, i, wire, s, c, h) ==
            if wire == WT_STRING && Packable(sch[sid][i].ltype)
            then DecodeSpec.StaticPacked(sch[sid][i], s, c, h)
            else DecodeSpec.StaticSingle(sch, sch[sid][i], s, c, h)
  {
    assert WfMessage(sch, sid) && OkField(sch, sid, i);
  }

  lemma BlockStep(f: Field, s: seq<Byte>, es: seq<int>, t: seq<Byte>, items: seq<Slot>, k: nat, h: Heap)
    requires CarriesBlock(f, s, es) && k <= f.arraySize
    ensures var o := DecodeSpec.StaticPacked(f, s + t, Cell(Arr(items), Num(k)), h);
            && (o.ok <==> k + |es| <= f.arraySize)
            && (o.ok ==> o == DecodeSpec.StepOut(true, t, Cell(Arr(Write(items, k, es)), Num(k + |es|)), h))
  {
    hide DecodeSpec.Delimited, DecodeSpec.PackedItems, Reads, Write;
    var body := DecodeSpec.Delimited(s).body;
    DelimitedLocal(s, t);
    assert [] + t == t;
    PackedReads(f, body, es, items, k);
  }

  lemma SingleStep(sch: Schema, f: Field, s: seq<Byte>, es: seq<int>, t: seq<Byte>, items: seq<Slot>, k: nat, h: Heap)
    requires WfSchema(sch) && Release.KnownRef(sch, f)
    requires CarriesOne(f, s, es) && Packable(f.ltype) && k <= f.arraySize
    ensures var o := DecodeSpec.StaticSingle(sch, f, s + t, Cell(Arr(items), Num(k)), h);
            && (o.ok <==> k + 1 <= f.arraySize)
            && (o.ok ==> o == DecodeSpec.StepOut(true, t, Cell(Arr(SetItem(items, k, Num(es[0]))), Num(k + 1)), h))
  {
    hide DecScalar;
    SameScalar(f, s, ItemAt(items, k), Undef);
    ScalarLocal(f, s, t, ItemAt(items, k));
    assert [] + t == t;
  }

  lemma WriteOne(items: seq<Slot>, k: nat, e: int)
    ensures Write(items, k, [e]) == SetItem(items, k, Num(e))
  {
    assert [e][1..] == [];
  }

  /** What a step of a static scalar array does with one part. */
  lemma PartStep(sch: Schema, sid: nat, i: nat, p: Part, t: seq<Byte>, items: seq<Slot>, k: nat, h: Heap)
    requires WfSchema(sch) && sid < |sch| && i < |sch[sid]| && ScalarArray(sch, sid, i)
    requires Carries(sch[sid][i], p.record, p.elems) && k <= sch[sid][i].arraySize
    ensures var f, tag := sch[sid][i], DecodeSpec.DecodeTag(p.record);
            var o := DecodeSpec.FieldStep(sch, sid, i, tag.wire, tag.rest + t, Cell(Arr(items), Num(k)), h);
            && (o.ok <==> k + |p.elems| <= f.arraySize)
            && (o.ok ==> o == DecodeSpec.StepOut(true, t, Cell(Arr(Write(items, k, p.elems)), Num(k + |p.elems|)), h))
  {
    hide DecodeSpec.FieldStep, DecodeSpec.StaticPacked, DecodeSpec.StaticSingle, DecodeSpec.DecodeTag, DecScalar;
    hide Write, SetItem, CarriesBlock;
    var f, tag := sch[sid][i], DecodeSpec.DecodeTag(p.record);
    RepeatedStep(sch, sid, i, tag.wire, tag.rest + t, Cell(Arr(items), Num(k)), h);
    if tag.wire == WT_STRING {
      BlockStep(f, tag.rest, p.elems, t, items, k, h);
    } else {
      SingleStep(sch, f, tag.rest, p.elems, t, items, k, h);
      assert p.elems == [p.elems[0]];
      WriteOne(items, k, p.elems[0]);
    }
  }

  /** The locals of a run after `n` elements of field `i` have been stored. */
  ghost predicate Filled(sch: Schema, sid: nat, i: nat, items: seq<Slot>, k: nat, es: seq<int>, was: DecodeSpec.Run,
                         now: DecodeSpec.Run)
    requires WfSchema(sch) && sid < |sch| && i < |sch[sid]|
  {
    && now.store == PutCell(sch[sid], was.store, i, Cell(Arr(Write(items, k, es)), Num(k + |es|)))
    && now.heap == was.heap && now.seen == was.seen
    && (if DecodeSpec.FixedCount(sch[sid][i]) then now.fixed == i && now.fixedSize == k + |es|
        else now.fixed == was.fixed && now.fixedSize == was.fixedSize)
  }

  /** The record of a part is handed to its field, with what follows it. */
  lemma PartIsKnown(sch: Schema, sid: nat, i: nat, p: Part, t: seq<Byte>, run: DecodeSpec.Run)
    requires WfSchema(sch) && sid < |sch| && i < |sch[sid]| && Carries(sch[sid][i], p.record, p.elems)
    ensures var tag := DecodeSpec.DecodeTag(p.record);
            && tag.Tag?
            && DecodeSpec.Record(sch, sid, p.record + t, run) ==
               DecodeSpec.KnownRecord(sch, sid, i, tag.wire, tag.rest + t, run)
  {
    hide DecodeSpec.KnownRecord, DecodeSpec.DecodeTag;
    TagFound(sch, sid, i);
    TagLocal(p.record, t);
  }

  /** One part, as a record of the message. */
  lemma PartRecord(sch: Schema, sid: nat, i: nat, p: Part, t: seq<Byte>, items: seq<Slot>, k: nat, run: DecodeSpec.Run)
    requires WfSchema(sch) && sid < |sch| && i < |sch[sid]| && ScalarArray(sch, sid, i)
    requires Carries(sch[sid][i], p.record, p.elems) && k <= sch[sid][i].arraySize
    requires Ready(sch[sid], run, i, k) && CellOf(sch[sid], run.store, i).data == Arr(items)
    ensures var o := DecodeSpec.Record(sch, sid, p.record + t, run);
            && (o.ok <==> k + |p.elems| <= sch[sid][i].arraySize)
            && (o.ok ==> !o.stopped && o.rest == t && Filled(sch, sid, i, items, k, p.elems, run, o.run))
  {
    hide DecodeSpec.Record, DecodeSpec.KnownRecord, DecodeSpec.FieldStep, Carries, DecodeSpec.DecodeTag, Write, PutCell;
    hide Ready, WfSchema;
    var tag := DecodeSpec.DecodeTag(p.record);
    PartIsKnown(sch, sid, i, p, t, run);
    RepeatedRecord(sch, sid, i, tag.wire, tag.rest + t, run, k);
    PartStep(sch, sid, i, p, t, items, k, run.heap);
  }

  lemma FilledIsReady(sch: Schema, sid: nat, i: nat, items: seq<Slot>, k: nat, es: seq<int>, was: DecodeSpec.Run,
                      now: DecodeSpec.Run)
    requires WfSchema(sch) && sid < |sch| && i < |sch[sid]| && sch[sid][i].htype.Repeated?
    requires Filled(sch, sid, i, items, k, es, was, now)
    ensures Ready(sch[sid], now, i, k + |es|) && CellOf(sch[sid], now.store, i).data == Arr(Write(items, k, es))
  {
    StillReady(sch, sid, i, now, Arr(Write(items, k, es)), k + |es|, was.store);
  }

  lemma FilledTwice(sch: Schema, sid: nat, i: nat, items: seq<Slot>, k: nat, a: seq<int>, b: seq<int>,
                    was: DecodeSpec.Run, mid: DecodeSpec.Run, now: DecodeSpec.Run)
    requires WfSchema(sch) && sid < |sch| && i < |sch[sid]|
    requires Filled(sch, sid, i, items, k, a, was, mid)
    requires Filled(sch, sid, i, Write(items, k, a), k + |a|, b, mid, now)
    ensures Filled(sch, sid, i, items, k, a + b, was, now)
  {
    WriteConcat(items, k, a, b);
    PutTwice(sch[sid], was.store, i, Cell(Arr(Write(items, k, a)), Num(k + |a|)),
             Cell(Arr(Write(items, k, a + b)), Num(k + |a + b|)));
  }

  lemma TwoParts(sch: Schema, sid: nat, r: seq<Byte>, t: seq<Byte>, run: DecodeSpec.Run)
    requires WfSchema(sch) && sid < |sch| && r != []
    ensures var o := DecodeSpec.Record(sch, sid, r + t, run);
            DecodeSpec.Records(sch, sid, r + t, run) ==
            if !o.ok || o.stopped then o else DecodeSpec.Records(sch, sid, o.rest, o.run)
  {
    AppendNonEmpty(r, t);
  }

  /** Any mixture of packed blocks and single elements stores its elements one
      after the other, and fails exactly when they do not all fit. */
  lemma {:induction false} AnyMixture(sch: Schema, sid: nat, i: nat, parts: seq<Part>, items: seq<Slot>, k: nat,
                                      run: DecodeSpec.Run)
    requires WfSchema(sch) && sid < |sch| && i < |sch[sid]| && ScalarArray(sch, sid, i)
    requires parts != [] && ValidParts(sch[sid][i], parts)
    requires k <= sch[sid][i].arraySize
    requires Ready(sch[sid], run, i, k) && CellOf(sch[sid], run.store, i).data == Arr(items)
    ensures var o := DecodeSpec.Records(sch, sid, PartsBytes(parts), run);
            && (o.ok <==> k + |AllElems(parts)| <= sch[sid][i].arraySize)
            && (o.ok ==> ToTheEnd(o) && Filled(sch, sid, i, items, k, AllElems(parts), run, o.run))
    decreases |parts|
  {
    hide DecodeSpec.Record, Carries, Write;
    var f := sch[sid][i];
    var first, tail := parts[0].elems, PartsBytes(parts[1..]);
    PartRecord(sch, sid, i, parts[0], tail, items, k, run);
    PartNonEmpty(f, parts[0]);
    TwoParts(sch, sid, parts[0].record, tail, run);
    var o := DecodeSpec.Record(sch, sid, parts[0].record + tail, run);
    if |parts| == 1 {
      assert parts[1..] == [] && first + [] == first;
    } else if o.ok {
      FilledIsReady(sch, sid, i, items, k, first, run, o.run);
      AnyMixture(sch, sid, i, parts[1..], Write(items, k, first), k + |first|, o.run);
      var last := DecodeSpec.Records(sch, sid, tail, o.run);
      if last.ok {
        FilledTwice(sch, sid, i, items, k, first, AllElems(parts[1..]), run, o.run, last.run);
      }
    }
  }

  lemma PartNonEmpty(f: Field, p: Part)
    requires Carries(f, p.record, p.elems)
    ensures p.record != []
  {
  }

  lemma OnePart(p: Part)
    ensures PartsBytes([p]) == p.record && AllElems([p]) == p.elems
  {
    assert [p][1..] == [];
    assert p.record + [] == p.record;
    assert p.elems + [] == p.elems;
  }

  lemma FilledOnce(sch: Schema, sid: nat, i: nat, items: seq<Slot>, k: nat, es: seq<int>, was: DecodeSpec.Run,
                   a: DecodeSpec.Run, b: DecodeSpec.Run)
    requires WfSchema(sch) && sid < |sch| && i < |sch[sid]|
    requires Filled(sch, sid, i, items, k, es, was, a) && Filled(sch, sid, i, items, k, es, was, b)
    ensures a == b
  {
  }

  /** Packed and unpacked forms are interchangeable: two mixtures that carry the
      same elements, one packed block for instance, are decoded to the same state. */
  lemma FormDoesNotMatter(sch: Schema, sid: nat, i: nat, ps: seq<Part>, qs: seq<Part>, items: seq<Slot>, k: nat,
                          run: DecodeSpec.Run)
    requires WfSchema(sch) && sid < |sch| && i < |sch[sid]| && ScalarArray(sch, sid, i)
    requires ps != [] && ValidParts(sch[sid][i], ps) && qs != [] && ValidParts(sch[sid][i], qs)
    requires AllElems(ps) == AllElems(qs) && k <= sch[sid][i].arraySize
    requires Ready(sch[sid], run, i, k) && CellOf(sch[sid], run.store, i).data == Arr(items)
    ensures var a := DecodeSpec.Records(sch, sid, PartsBytes(ps), run);
            var b := DecodeSpec.Records(sch, sid, PartsBytes(qs), run);
            a.ok == b.ok && (a.ok ==> a == b)
  {
    hide DecodeSpec.Records, ValidParts, AllElems, PartsBytes;
    AnyMixture(sch, sid, i, ps, items, k, run);
    AnyMixture(sch, sid, i, qs, items, k, run);
    var a, b := DecodeSpec.Records(sch, sid, PartsBytes(ps), run), DecodeSpec.Records(sch, sid, PartsBytes(qs), run);
    if a.ok {
      FilledOnce(sch, sid, i, items, k, AllElems(ps), run, a.run, b.run);
    }
  }
}
