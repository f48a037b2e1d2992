/** A decoder that succeeds on a prefix behaves the same on any longer input: it
    leaves the extra bytes alone and writes the same things. */
module Locality {
  import opened Bits
  import opened Varint
  import opened Descriptor
  import opened Scalars
  import opened FieldIterator
  import opened Allocator
  import opened Release
  import opened DecodeSpec

  lemma DelimitedLocal(s: seq<Byte>, t: seq<Byte>)
    requires Delimited(s).Chunk?
    ensures Delimited(s + t) == Chunk(Delimited(s).body, Delimited(s).rest + t)
  {
    VarintLocal(s, t);
    SliceLocal(Varint32(s).rest, t, Varint32(s).value);
  }

  lemma SkipLocal(wire: nat, s: seq<Byte>, t: seq<Byte>)
    requires SkipField(wire, s).Skipped?
    ensures SkipField(wire, s + t) == Skipped(SkipField(wire, s).rest + t)
  {
    if wire == WT_VARINT {
      VarLenAppend(s, t);
    } else if wire == WT_STRING {
      DelimitedLocal(s, t);
    } else {
      var n := if wire == WT_64BIT then 8 else 4;
      assert (s + t)[n..] == s[n..] + t;
    }
  }

  lemma TagLocal(s: seq<Byte>, t: seq<Byte>)
    requires !DecodeTag(s).BadTag?
    ensures DecodeTag(s).Tag? ==> DecodeTag(s + t) == DecodeTag(s).(rest := DecodeTag(s).rest + t)
    ensures DecodeTag(s).EndTag? ==> DecodeTag(s + t) == EndTag(DecodeTag(s).rest + t)
  {
    VarintLocal(s, t);
  }

  lemma SliceLocal(r: seq<Byte>, t: seq<Byte>, n: nat)
    requires n <= |r|
    ensures (r + t)[..n] == r[..n] && (r + t)[n..] == r[n..] + t
  {
  }

  lemma BufferLocal(f: Field, s: seq<Byte>, t: seq<Byte>, dest: Slot, h: Heap)
    requires DecBuffer(f, s, dest, h).ok
    ensures DecBuffer(f, s + t, dest, h) == DecBuffer(f, s, dest, h).(rest := DecBuffer(f, s, dest, h).rest + t)
  {
    hide Varint32, U32, FillBuffer;
    VarintLocal(s, t);
    var n, r := Varint32(s).value, Varint32(s).rest;
    FillLocal(f, r, t, n, if f.ltype.Bytes? then BYTES_HEADER + n else U32(n + 1), dest, h);
  }

  lemma FillLocal(f: Field, r: seq<Byte>, t: seq<Byte>, n: nat, capacity: nat, dest: Slot, h: Heap)
    requires FillBuffer(f, r, n, capacity, dest, h).ok
    ensures var v := FillBuffer(f, r, n, capacity, dest, h);
            FillBuffer(f, r + t, n, capacity, dest, h) == v.(rest := v.rest + t)
  {
    hide AllocateField;
    SliceLocal(r, t, n);
  }

  lemma FixedBytesLocal(f: Field, s: seq<Byte>, t: seq<Byte>, dest: Slot, h: Heap)
    requires DecFixedBytes(f, s, dest, h).ok
    ensures DecFixedBytes(f, s + t, dest, h) ==
            DecFixedBytes(f, s, dest, h).(rest := DecFixedBytes(f, s, dest, h).rest + t)
  {
    VarintLocal(s, t);
    if Varint32(s).value > 0 {
      SliceLocal(Varint32(s).rest, t, Varint32(s).value);
    }
  }

  lemma ValueLocal(sch: Schema, f: Field, s: seq<Byte>, t: seq<Byte>, dest: Slot, h: Heap)
    requires WfSchema(sch) && KnownRef(sch, f)
    requires DecValue(sch, f, s, dest, h).ok
    ensures DecValue(sch, f, s + t, dest, h) ==
            DecValue(sch, f, s, dest, h).(rest := DecValue(sch, f, s, dest, h).rest + t)
  {
    if Packable(f.ltype) {
      ScalarLocal(f, s, t, dest);
    } else if f.ltype.SubMessage? {
      DelimitedLocal(s, t);
    } else if f.ltype.FixedLengthBytes? {
      FixedBytesLocal(f, s, t, dest, h);
    } else {
      BufferLocal(f, s, t, dest, h);
    }
  }

  /** `o` and `p` are the same outcome, with `t` left over in `p`. */
  ghost predicate Extends(o: StepOut, p: StepOut, t: seq<Byte>) {
    p == o.(rest := o.rest + t)
  }

  lemma StaticLocal(sch: Schema, f: Field, wire: nat, s: seq<Byte>, t: seq<Byte>, c: Cell, h: Heap)
    requires WfSchema(sch) && KnownRef(sch, f)
    requires StaticStep(sch, f, wire, s, c, h).ok
    ensures Extends(StaticStep(sch, f, wire, s, c, h), StaticStep(sch, f, wire, s + t, c, h), t)
  {
    match f.htype
    case Repeated =>
      if wire == WT_STRING && Packable(f.ltype) {
        DelimitedLocal(s, t);
      } else {
        ValueLocal(sch, f, s, t, ItemAt(Items(c.data), Number(c.size)), h);
      }
    case OneOf =>
      var start := if f.ltype.SubMessage? && f.ptr.Fields? && Number(c.size) != f.tag
      then Defaults.FreshStruct(sch, f.ptr.id) else c.data;
      ValueLocal(sch, f, s, t, start, h);
    case _ =>
      ValueLocal(sch, f, s, t, c.data, h);
  }

  lemma PointerOneLocal(sch: Schema, f: Field, s: seq<Byte>, t: seq<Byte>, c: Cell, h: Heap)
    requires WfSchema(sch) && KnownRef(sch, f)
    requires PointerOne(sch, f, s, c, h).ok
    ensures Extends(PointerOne(sch, f, s, c, h), PointerOne(sch, f, s + t, c, h), t)
  {
    var r := if f.ltype.SubMessage? && !c.data.Nil? then ReleaseCell(sch, f, c.data, c.size, h) else CellHeap(c, h);
    if f.ltype.String? || f.ltype.Bytes? {
      ValueLocal(sch, f, s, t, r.cell.data, r.heap);
    } else {
      var a := AllocateField(r.heap, r.cell.data, f.dataSize, 1);
      ValueLocal(sch, f, s, t, NewItem(sch, f, ItemAt(Items(a.slot), 0)), a.heap);
    }
  }

  lemma PointerLocal(sch: Schema, f: Field, wire: nat, s: seq<Byte>, t: seq<Byte>, c: Cell, h: Heap)
    requires WfSchema(sch) && KnownRef(sch, f) && f.dataSize > 0
    requires PointerStep(sch, f, wire, s, c, h).ok
    ensures Extends(PointerStep(sch, f, wire, s, c, h), PointerStep(sch, f, wire, s + t, c, h), t)
  {
    if !f.htype.Repeated? {
      PointerOneLocal(sch, f, s, t, c, h);
    } else if wire == WT_STRING && Packable(f.ltype) {
      DelimitedLocal(s, t);
    } else {
      var k := Number(c.size);
      var a := AllocateField(h, c.data, f.dataSize, k + 1);
      ValueLocal(sch, f, s, t, NewItem(sch, f, ItemAt(Items(a.slot), k)), a.heap);
    }
  }

  lemma FieldLocal(sch: Schema, sid: nat, i: nat, wire: nat, s: seq<Byte>, t: seq<Byte>, c: Cell, h: Heap)
    requires WfSchema(sch) && sid < |sch| && i < |sch[sid]|
    requires FieldStep(sch, sid, i, wire, s, c, h).ok
    ensures Extends(FieldStep(sch, sid, i, wire, s, c, h), FieldStep(sch, sid, i, wire, s + t, c, h), t)
  {
    var f := sch[sid][i];
    assert WfMessage(sch, sid) && OkField(sch, sid, i);
    var u := if f.htype.OneOf? then ReleaseUnion(sch, sid, i, c, h) else UnionOut(true, c, h);
    if f.atype.Static? {
      StaticLocal(sch, f, wire, s, t, u.cell, u.heap);
    } else {
      PointerLocal(sch, f, wire, s, t, u.cell, u.heap);
    }
  }

  lemma KnownLocal(sch: Schema, sid: nat, i: nat, wire: nat, s: seq<Byte>, t: seq<Byte>, run: Run)
    requires WfSchema(sch) && sid < |sch| && i < |sch[sid]|
    requires KnownRecord(sch, sid, i, wire, s, run).ok
    ensures var o := KnownRecord(sch, sid, i, wire, s, run);
            KnownRecord(sch, sid, i, wire, s + t, run) == o.(rest := o.rest + t)
  {
    var fs := sch[sid];
    var run1 := (if FixedCount(fs[i]) then EnterFixed(run, i) else run).(seen := run.seen + Seen(fs, i));
    FieldLocal(sch, sid, i, wire, s, t, RunCell(fs, run1, i), run1.heap);
  }

  /** A record that is decoded, whether known, skipped or the end mark, is decoded
      alike in front of any other bytes. */
  lemma RecordLocal(sch: Schema, sid: nat, s: seq<Byte>, t: seq<Byte>, run: Run)
    requires WfSchema(sch) && sid < |sch|
    requires Record(sch, sid, s, run).ok
    ensures var o := Record(sch, sid, s, run); Record(sch, sid, s + t, run) == o.(rest := o.rest + t)
  {
    TagLocal(s, t);
    match DecodeTag(s)
    case EndTag(_) =>
    case Tag(number, wire, rest) =>
      if !Known(sch[sid], number) {
        SkipLocal(wire, rest, t);
      } else if sch[sid] == [] {
        ScalarLocal(LAST_FIELD, rest, t, Look(run.store, 0));
      } else {
        KnownLocal(sch, sid, FirstMatch(sch[sid], number, 0), wire, rest, t, run);
      }
  }
}
