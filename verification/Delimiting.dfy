/** Length-delimited fields: a success leaves the parent stream exactly the
    announced length further on, whatever the decoder of the contents read. */
module Delimiting {
  import opened Bits
  import opened Varint
  import opened Descriptor
  import opened Scalars
  import opened FieldIterator
  import opened Defaults
  import opened Allocator
  import opened Release
  import opened DecodeSpec
  import EncodeSpec
  import Merge
  import Arrays
  import RoundTrip

  /** The decoder of the field reads a length first. */
  predicate ReadsLength(f: Field, wire: nat) {
    if Packable(f.ltype) then f.htype.Repeated? && wire == WT_STRING else !f.ltype.Extension?
  }

  /** `rest` is what follows the announced bytes. */
  predicate AfterAnnounced(s: seq<Byte>, rest: seq<Byte>) {
    var p := Varint32(s);
    p.Got? && p.value <= |p.rest| && rest == p.rest[p.value..]
  }

  lemma ChunkAdvances(s: seq<Byte>)
    ensures Delimited(s).Chunk? ==> AfterAnnounced(s, Delimited(s).rest)
  {
  }

  lemma BufferAdvances(f: Field, s: seq<Byte>, dest: Slot, h: Heap)
    ensures DecBuffer(f, s, dest, h).ok ==> AfterAnnounced(s, DecBuffer(f, s, dest, h).rest)
    ensures DecFixedBytes(f, s, dest, h).ok ==> AfterAnnounced(s, DecFixedBytes(f, s, dest, h).rest)
  {
  }

  lemma ValueAdvances(sch: Schema, f: Field, s: seq<Byte>, dest: Slot, h: Heap)
    requires WfSchema(sch) && KnownRef(sch, f) && !Packable(f.ltype)
    ensures DecValue(sch, f, s, dest, h).ok ==> AfterAnnounced(s, DecValue(sch, f, s, dest, h).rest)
  {
    BufferAdvances(f, s, dest, h);
    ChunkAdvances(s);
    assert f.ltype.SubMessage? ==> DecValue(sch, f, s, dest, h) == DecSub(sch, f, s, dest, h);
  }

  lemma StaticAdvances(sch: Schema, f: Field, wire: nat, s: seq<Byte>, c: Cell, h: Heap)
    requires WfSchema(sch) && KnownRef(sch, f) && ReadsLength(f, wire)
    ensures var o := StaticStep(sch, f, wire, s, c, h); o.ok ==> AfterAnnounced(s, o.rest)
  {
    match f.htype
    case Repeated =>
      if Packable(f.ltype) {
        ChunkAdvances(s);
      } else {
        ValueAdvances(sch, f, s, ItemAt(Items(c.data), Number(c.size)), h);
      }
    case OneOf =>
      var start := if f.ltype.SubMessage? && f.ptr.Fields? && Number(c.size) != f.tag
      then FreshStruct(sch, f.ptr.id) else c.data;
      ValueAdvances(sch, f, s, start, h);
    case _ =>
      ValueAdvances(sch, f, s, c.data, h);
  }

  lemma OneAdvances(sch: Schema, f: Field, s: seq<Byte>, c: Cell, h: Heap)
    requires WfSchema(sch) && KnownRef(sch, f) && !Packable(f.ltype)
    ensures var o := PointerOne(sch, f, s, c, h); o.ok ==> AfterAnnounced(s, o.rest)
  {
    var r := if f.ltype.SubMessage? && !c.data.Nil? then ReleaseCell(sch, f, c.data, c.size, h) else CellHeap(c, h);
    if f.ltype.String? || f.ltype.Bytes? {
      ValueAdvances(sch, f, s, r.cell.data, r.heap);
    } else {
      var a := AllocateField(r.heap, r.cell.data, f.dataSize, 1);
      ValueAdvances(sch, f, s, NewItem(sch, f, ItemAt(Items(a.slot), 0)), a.heap);
    }
  }

  lemma PointerAdvances(sch: Schema, f: Field, wire: nat, s: seq<Byte>, c: Cell, h: Heap)
    requires WfSchema(sch) && KnownRef(sch, f) && f.dataSize > 0 && ReadsLength(f, wire)
    ensures var o := PointerStep(sch, f, wire, s, c, h); o.ok ==> AfterAnnounced(s, o.rest)
  {
    if !f.htype.Repeated? {
      OneAdvances(sch, f, s, c, h);
    } else if Packable(f.ltype) {
      ChunkAdvances(s);
    } else {
      var k := Number(c.size);
      if k >= 0 {
        var a := AllocateField(h, c.data, f.dataSize, k + 1);
        ValueAdvances(sch, f, s, NewItem(sch, f, ItemAt(Items(a.slot), k)), a.heap);
      }
    }
  }

  /** Every length-delimited field, decoded at any depth of nesting, takes the bytes
      it announces and no others, even when the decoder inside stopped early. */
  lemma ParentAdvances(sch: Schema, sid: nat, i: nat, wire: nat, s: seq<Byte>, c: Cell, h: Heap)
    requires WfSchema(sch) && sid < |sch| && i < |sch[sid]| && ReadsLength(sch[sid][i], wire)
    ensures var o := FieldStep(sch, sid, i, wire, s, c, h); o.ok ==> AfterAnnounced(s, o.rest)
  {
    var f := sch[sid][i];
    assert WfMessage(sch, sid) && OkField(sch, sid, i);
    var u := if f.htype.OneOf? then ReleaseUnion(sch, sid, i, c, h) else UnionOut(true, c, h);
    if f.atype.Static? {
      StaticAdvances(sch, f, wire, s, u.cell, u.heap);
    } else {
      PointerAdvances(sch, f, wire, s, u.cell, u.heap);
    }
  }

  // ------------------------------------------------------------ record ends

  /** What follows the record at the start of `s`, going by its bytes and the table. */
  function RecordEnd(fs: seq<Field>, s: seq<Byte>): (k: Skip)
    ensures k.Skipped? ==> |k.rest| < |s|
  {
    match DecodeTag(s)
    case Tag(number, wire, rest) =>
      if !Known(fs, number) then SkipField(wire, rest)
      else PayloadEnd(FieldAt(fs, FirstMatch(fs, number, 0)), wire, rest)
    case _ => NoSkip
  }

  function PayloadEnd(f: Field, wire: nat, s: seq<Byte>): (k: Skip)
    ensures k.Skipped? ==> |k.rest| < |s|
  {
    if ReadsLength(f, wire) then
      (match Delimited(s) case NoChunk => NoSkip case Chunk(_, rest) => Skipped(rest))
    else
      var d := DecScalar(f, s, Undef);
      if d.ok then Skipped(d.rest) else NoSkip
  }

  lemma ValueIsScalar(sch: Schema, f: Field, s: seq<Byte>, dest: Slot, h: Heap)
    requires WfSchema(sch) && KnownRef(sch, f) && Packable(f.ltype)
    ensures var v, d := DecValue(sch, f, s, dest, h), DecScalar(f, s, Undef); v.ok ==> d.ok && v.rest == d.rest
  {
    hide DecScalar;
    SameScalar(f, s, dest, Undef);
  }

  lemma StaticScalarEnds(sch: Schema, f: Field, wire: nat, s: seq<Byte>, c: Cell, h: Heap)
    requires WfSchema(sch) && KnownRef(sch, f) && Packable(f.ltype) && !ReadsLength(f, wire)
    ensures var o, d := StaticStep(sch, f, wire, s, c, h), DecScalar(f, s, Undef); o.ok ==> d.ok && o.rest == d.rest
  {
    hide DecValue, DecScalar;
    if f.htype.Repeated? {
      ValueIsScalar(sch, f, s, ItemAt(Items(c.data), Number(c.size)), h);
    } else {
      ValueIsScalar(sch, f, s, c.data, h);
    }
  }

  lemma PointerScalarEnds(sch: Schema, f: Field, wire: nat, s: seq<Byte>, c: Cell, h: Heap)
    requires WfSchema(sch) && KnownRef(sch, f) && f.dataSize > 0 && Packable(f.ltype) && !ReadsLength(f, wire)
    ensures var o, d := PointerStep(sch, f, wire, s, c, h), DecScalar(f, s, Undef); o.ok ==> d.ok && o.rest == d.rest
  {
    hide DecValue, DecScalar, AllocateField;
    var k := if f.htype.Repeated? then Number(c.size) else 0;
    if k >= 0 {
      var a := AllocateField(h, c.data, f.dataSize, k + 1);
      ValueIsScalar(sch, f, s, NewItem(sch, f, ItemAt(Items(a.slot), k)), a.heap);
    }
  }

  lemma PayloadAdvances(sch: Schema, sid: nat, i: nat, wire: nat, s: seq<Byte>, c: Cell, h: Heap)
    requires WfSchema(sch) && sid < |sch| && i < |sch[sid]|
    ensures var o := FieldStep(sch, sid, i, wire, s, c, h); o.ok ==> PayloadEnd(sch[sid][i], wire, s) == Skipped(o.rest)
  {
    hide StaticStep, PointerStep, ReleaseUnion, DecScalar;
    var f := sch[sid][i];
    assert WfMessage(sch, sid) && OkField(sch, sid, i);
    if ReadsLength(f, wire) {
      ParentAdvances(sch, sid, i, wire, s, c, h);
    } else {
      var u := if f.htype.OneOf? then ReleaseUnion(sch, sid, i, c, h) else UnionOut(true, c, h);
      if f.atype.Static? {
        StaticScalarEnds(sch, f, wire, s, u.cell, u.heap);
      } else {
        PointerScalarEnds(sch, f, wire, s, u.cell, u.heap);
      }
    }
  }

  /** Where a decoded record ends depends on its bytes and on the table, not on the
      struct, the heap or what was decoded before. */
  lemma RecordAdvances(sch: Schema, sid: nat, s: seq<Byte>, run: Run)
    requires WfSchema(sch) && sid < |sch|
    ensures var o := Record(sch, sid, s, run); o.ok && !o.stopped ==> RecordEnd(sch[sid], s) == Skipped(o.rest)
  {
    hide FieldStep, PayloadEnd, SkipField;
    match DecodeTag(s)
    case Tag(number, wire, rest) =>
      if Known(sch[sid], number) {
        if sch[sid] == [] {
          TerminatorEnds(rest, run);
        } else {
          var i := FirstMatch(sch[sid], number, 0);
          KnownEnds(sch, sid, i, wire, rest, run);
        }
      }
    case _ =>
  }

  lemma TerminatorEnds(s: seq<Byte>, run: Run)
    ensures var o := TerminatorRecord(s, run); o.ok ==> PayloadEnd(LAST_FIELD, 0, s) == Skipped(o.rest)
    ensures forall wire {:trigger PayloadEnd(LAST_FIELD, wire, s)} ::
              PayloadEnd(LAST_FIELD, wire, s) == PayloadEnd(LAST_FIELD, 0, s)
  {
    hide DecScalar;
    SameScalar(LAST_FIELD, s, Look(run.store, 0), Undef);
  }

  lemma KnownEnds(sch: Schema, sid: nat, i: nat, wire: nat, s: seq<Byte>, run: Run)
    requires WfSchema(sch) && sid < |sch| && i < |sch[sid]|
    ensures var o := KnownRecord(sch, sid, i, wire, s, run);
            o.ok ==> PayloadEnd(sch[sid][i], wire, s) == Skipped(o.rest)
  {
    hide FieldStep, PayloadEnd;
    var fs := sch[sid];
    var run1 := (if FixedCount(fs[i]) then EnterFixed(run, i) else run).(seen := run.seen + Seen(fs, i));
    PayloadAdvances(sch, sid, i, wire, s, RunCell(fs, run1, i), run1.heap);
  }

  lemma StopsAtZero(sch: Schema, sid: nat, junk: seq<Byte>, run: Run)
    requires WfSchema(sch) && sid < |sch|
    ensures Records(sch, sid, [0] + junk, run) == RunOut(true, true, junk, run)
  {
    Merge.ZeroByteStops(sch, sid, run);
    Merge.RecordsConcat(sch, sid, [0], junk, run);
    assert [] + junk == junk;
  }

  /** A submessage may stop early: a zero key inside hides the rest of its bytes
      from it, and the parent continues after all of them. */
  lemma EarlyStop(sch: Schema, f: Field, junk: seq<Byte>, t: seq<Byte>, dest: Slot, h: Heap)
    requires WfSchema(sch) && KnownRef(sch, f) && f.ltype.SubMessage? && f.ptr.Fields? && !f.htype.Repeated?
    requires dest.Sub?
    requires RequiredBefore(sch[f.ptr.id], |sch[f.ptr.id]|) == 0 && 1 + |junk| < TWO32
    ensures DecValue(sch, f, EncodeSpec.EncString([0] + junk) + t, dest, h) == ValueOut(true, t, dest, h)
  {
    StopsAtZero(sch, f.ptr.id, junk, Start(dest.members, h));
    RoundTrip.SubIsBody(sch, f, [0] + junk, t, dest, h);
  }

  /** What `pb_encode_nullterminated` sends decodes as the message does, and decoding stops
      behind the zero byte, whatever follows it. */
  lemma NullTerminated(sch: Schema, sid: nat, b: seq<Byte>, t: seq<Byte>, m: Store, h: Heap)
    requires WfSchema(sch) && sid < |sch|
    requires Decode(sch, sid, b, m, h).ok && Decode(sch, sid, b, m, h).rest == []
    requires !Records(sch, sid, b, Start(Initialised(sch, sid, m), h)).stopped
    ensures Decode(sch, sid, b + ([0] + t), m, h) == Decode(sch, sid, b, m, h).(rest := t)
  {
    hide Records, RequiredSeen, SetDefaults, Release.ReleaseStruct;
    var start := Start(Initialised(sch, sid, m), h);
    var run := Records(sch, sid, b, start).run;
    Merge.RecordsConcat(sch, sid, b, [0] + t, start);
    StopsAtZero(sch, sid, t, run);
  }

  /** What `pb_encode_delimited` sends is split off again, whatever follows it. */
  lemma DelimitedMessage(b: seq<Byte>, t: seq<Byte>)
    requires |b| < TWO32
    ensures Delimited(EncVarint(|b|) + b + t) == Chunk(b, t)
  {
    Arrays.ChunkRoundTrip(b, t);
    U32Small(|b|);
  }
}
