/** Descriptors without pointer fields, at any depth: decoding them neither reads
    nor changes the account of the heap. */
module StaticOnly {
  import opened Bits
  import opened Varint
  import opened Descriptor
  import opened Scalars
  import opened FieldIterator
  import opened Defaults
  import opened Allocator
  import opened Release
  import opened DecodeSpec

  predicate StaticField(sch: Schema, sid: nat, i: nat)
    requires WfSchema(sch) && sid < |sch| && i < |sch[sid]|
    decreases sid, 0
  {
    var f := sch[sid][i];
    f.atype.Static? && (f.ptr.Fields? ==> f.ptr.id < sid && StaticMessage(sch, f.ptr.id))
  }

  predicate StaticMessage(sch: Schema, sid: nat)
    requires WfSchema(sch) && sid < |sch|
    decreases sid, 1
  {
    forall i {:trigger StaticField(sch, sid, i)} :: 0 <= i < |sch[sid]| ==> StaticField(sch, sid, i)
  }

  /** The part of `StaticField` that the decoders of one value rely on. */
  predicate StaticRef(sch: Schema, f: Field)
    requires WfSchema(sch)
  {
    f.atype.Static? && (f.ptr.Fields? ==> f.ptr.id < |sch| && StaticMessage(sch, f.ptr.id))
  }

  // ---------------------------------------------------------------- release

  ghost predicate SameSlot(a: SlotHeap, b: SlotHeap, h: Heap) {
    b == a.(heap := h)
  }

  lemma {:induction false} ReleaseStructStatic(sch: Schema, sid: nat, src: Slot, h: Heap, g: Heap)
    requires WfSchema(sch) && sid < |sch| && StaticMessage(sch, sid)
    ensures SameSlot(ReleaseStruct(sch, sid, src, h), ReleaseStruct(sch, sid, src, g), g)
    decreases src, 1
  {
    ReleaseFieldsStatic(sch, sid, src, h, g, |sch[sid]|);
  }

  lemma {:induction false} ReleaseFieldsStatic(sch: Schema, sid: nat, src: Slot, h: Heap, g: Heap, n: nat)
    requires WfSchema(sch) && sid < |sch| && n <= |sch[sid]| && StaticMessage(sch, sid)
    ensures ReleaseFields(sch, sid, src, g, n) == ReleaseFields(sch, sid, src, h, n).(heap := g)
    ensures ReleaseFields(sch, sid, src, h, n).heap == h
    decreases src, 0, n
  {
    if n == 0 {
    } else {
      ReleaseFieldsStatic(sch, sid, src, h, g, n - 1);
      var fs := sch[sid];
      assert StaticField(sch, sid, n - 1);
      assert WfMessage(sch, sid) && OkField(sch, sid, n - 1);
      if src.Sub? && DataAt(fs, n - 1) in src.members {
        var c := CellOf(fs, src.members, n - 1);
        ReleaseCellStatic(sch, fs[n - 1], src.members[DataAt(fs, n - 1)], c.size, h, g);
      }
    }
  }

  lemma {:induction false} ReleaseCellStatic(sch: Schema, f: Field, data: Slot, size: Slot, h: Heap, g: Heap)
    requires WfSchema(sch) && StaticRef(sch, f)
    ensures ReleaseCell(sch, f, data, size, g) == ReleaseCell(sch, f, data, size, h).(heap := g)
    ensures ReleaseCell(sch, f, data, size, h).heap == h
    decreases data, 3
  {
    if f.ltype.SubMessage? && f.ptr.Fields? {
      match data
      case Sub(_) => ReleaseStructStatic(sch, f.ptr.id, data, h, g); ReleaseStructStatic(sch, f.ptr.id, data, h, h);
      case Arr(items) => ReleaseItemsStatic(sch, f.ptr.id, items, SubCount(f, size), h, g);
      case Block(_, cells) => ReleaseItemsStatic(sch, f.ptr.id, cells, SubCount(f, size), h, g);
      case _ =>
    }
  }

  lemma {:induction false} ReleaseItemsStatic(sch: Schema, id: nat, items: seq<Slot>, n: int, h: Heap, g: Heap)
    requires WfSchema(sch) && id < |sch| && StaticMessage(sch, id)
    ensures ReleaseItems(sch, id, items, n, g) == ReleaseItems(sch, id, items, n, h).(heap := g)
    ensures ReleaseItems(sch, id, items, n, h).heap == h
    decreases items
  {
    if n <= 0 || items == [] {
    } else {
      ReleaseStructStatic(sch, id, items[0], h, g);
      ReleaseStructStatic(sch, id, items[0], h, h);
      ReleaseItemsStatic(sch, id, items[1..], n - 1, h, g);
    }
  }

  // ----------------------------------------------------------------- decode

  ghost predicate SameItemRead(a: ValueOut, b: ValueOut, h: Heap, g: Heap) {
    a.heap == h && b == a.(heap := g)
  }

  ghost predicate SameStep(a: StepOut, b: StepOut, h: Heap, g: Heap) {
    a.heap == h && b == a.(heap := g)
  }

  ghost predicate SameRun(a: RunOut, b: RunOut, h: Heap, g: Heap) {
    a.run.heap == h && b == a.(run := a.run.(heap := g))
  }

  ghost predicate SameMessage(a: MessageOut, b: MessageOut, h: Heap, g: Heap) {
    a.heap == h && b == a.(heap := g)
  }

  lemma {:induction false} ValueStatic(sch: Schema, f: Field, s: seq<Byte>, dest: Slot, h: Heap, g: Heap)
    requires WfSchema(sch) && StaticRef(sch, f)
    ensures SameItemRead(DecValue(sch, f, s, dest, h), DecValue(sch, f, s, dest, g), h, g)
    decreases |s|, 2
  {
    if f.ltype.SubMessage? {
      SubStatic(sch, f, s, dest, h, g);
    } else {
      PlainStatic(sch, f, s, dest, h, g);
    }
  }

  lemma BufferStatic(f: Field, s: seq<Byte>, dest: Slot, h: Heap, g: Heap)
    requires f.atype.Static?
    ensures SameItemRead(DecBuffer(f, s, dest, h), DecBuffer(f, s, dest, g), h, g)
    ensures SameItemRead(DecFixedBytes(f, s, dest, h), DecFixedBytes(f, s, dest, g), h, g)
  {
    hide Varint32, U32;
  }

  lemma PlainStatic(sch: Schema, f: Field, s: seq<Byte>, dest: Slot, h: Heap, g: Heap)
    requires WfSchema(sch) && StaticRef(sch, f) && !f.ltype.SubMessage?
    ensures SameItemRead(DecValue(sch, f, s, dest, h), DecValue(sch, f, s, dest, g), h, g)
  {
    hide DecScalar, DecBuffer, DecFixedBytes;
    BufferStatic(f, s, dest, h, g);
  }

  lemma {:induction false} SubStatic(sch: Schema, f: Field, s: seq<Byte>, dest: Slot, h: Heap, g: Heap)
    requires WfSchema(sch) && StaticRef(sch, f)
    ensures SameItemRead(DecSub(sch, f, s, dest, h), DecSub(sch, f, s, dest, g), h, g)
    decreases |s|, 1
  {
    hide Decode, DecodeNoInit;
    if f.ptr.Fields? && Delimited(s).Chunk? {
      if f.htype.Repeated? {
        DecodeStatic(sch, f.ptr.id, Delimited(s).body, Members(dest), h, g);
      } else {
        NoInitStatic(sch, f.ptr.id, Delimited(s).body, Members(dest), h, g);
      }
    }
  }

  lemma {:induction false} StepStatic(sch: Schema, f: Field, wire: nat, s: seq<Byte>, c: Cell, h: Heap, g: Heap)
    requires WfSchema(sch) && StaticRef(sch, f)
    ensures SameStep(StaticStep(sch, f, wire, s, c, h), StaticStep(sch, f, wire, s, c, g), h, g)
    decreases |s|, 4
  {
    match f.htype
    case Repeated =>
      ValueStatic(sch, f, s, ItemAt(Items(c.data), Number(c.size)), h, g);
    case OneOf =>
      var start := if f.ltype.SubMessage? && f.ptr.Fields? && Number(c.size) != f.tag
      then FreshStruct(sch, f.ptr.id) else c.data;
      ValueStatic(sch, f, s, start, h, g);
    case _ =>
      ValueStatic(sch, f, s, c.data, h, g);
  }

  /** Every member of the union of a static field is static. */
  predicate StaticUnion(sch: Schema, sid: nat, i: nat)
    requires WfSchema(sch) && sid < |sch| && i < |sch[sid]|
  {
    forall j {:trigger StaticField(sch, sid, j)} ::
      0 <= j < |sch[sid]| && UnionHead(sch[sid], j) == UnionHead(sch[sid], i) ==> StaticField(sch, sid, j)
  }

  lemma UnionStatic(sch: Schema, sid: nat, i: nat, c: Cell, h: Heap, g: Heap)
    requires WfSchema(sch) && sid < |sch| && i < |sch[sid]| && StaticUnion(sch, sid, i)
    ensures ReleaseUnion(sch, sid, i, c, h).heap == h
    ensures ReleaseUnion(sch, sid, i, c, g) == ReleaseUnion(sch, sid, i, c, h).(heap := g)
  {
    var fs := sch[sid];
    var was := Number(c.size);
    if was > 0 && was != fs[i].tag {
      var j := FirstMatch(fs, was, 0);
      if j < |fs| && UnionHead(fs, j) == UnionHead(fs, i) {
        assert WfMessage(sch, sid) && OkField(sch, sid, j) && StaticField(sch, sid, j);
        ReleaseCellStatic(sch, fs[j], c.data, c.size, h, g);
      }
    }
  }

  lemma {:induction false} FieldStatic(sch: Schema, sid: nat, i: nat, wire: nat, s: seq<Byte>, c: Cell, h: Heap,
                                       g: Heap)
    requires WfSchema(sch) && sid < |sch| && i < |sch[sid]| && StaticUnion(sch, sid, i)
    ensures SameStep(FieldStep(sch, sid, i, wire, s, c, h), FieldStep(sch, sid, i, wire, s, c, g), h, g)
    decreases |s|, 5
  {
    var f := sch[sid][i];
    assert WfMessage(sch, sid) && OkField(sch, sid, i) && StaticField(sch, sid, i);
    var u := if f.htype.OneOf? then ReleaseUnion(sch, sid, i, c, h) else UnionOut(true, c, h);
    UnionStatic(sch, sid, i, c, h, g);
    StepStatic(sch, f, wire, s, u.cell, h, g);
  }

  lemma {:induction false} KnownStatic(sch: Schema, sid: nat, i: nat, wire: nat, s: seq<Byte>, run: Run, g: Heap)
    requires WfSchema(sch) && sid < |sch| && i < |sch[sid]| && StaticUnion(sch, sid, i)
    ensures SameRun(KnownRecord(sch, sid, i, wire, s, run), KnownRecord(sch, sid, i, wire, s, run.(heap := g)),
                    run.heap, g)
    decreases |s|, 6
  {
    var fs := sch[sid];
    var run1 := (if FixedCount(fs[i]) then EnterFixed(run, i) else run).(seen := run.seen + Seen(fs, i));
    FieldStatic(sch, sid, i, wire, s, RunCell(fs, run1, i), run.heap, g);
  }

  lemma {:induction false} RecordStatic(sch: Schema, sid: nat, s: seq<Byte>, run: Run, g: Heap)
    requires WfSchema(sch) && sid < |sch| && StaticMessage(sch, sid)
    ensures SameRun(Record(sch, sid, s, run), Record(sch, sid, s, run.(heap := g)), run.heap, g)
    decreases |s|, 6
  {
    match DecodeTag(s)
    case Tag(number, wire, rest) =>
      if Known(sch[sid], number) && sch[sid] != [] {
        KnownStatic(sch, sid, FirstMatch(sch[sid], number, 0), wire, rest, run, g);
      }
    case _ =>
  }

  lemma {:induction false} RecordsStatic(sch: Schema, sid: nat, s: seq<Byte>, run: Run, g: Heap)
    requires WfSchema(sch) && sid < |sch| && StaticMessage(sch, sid)
    ensures SameRun(Records(sch, sid, s, run), Records(sch, sid, s, run.(heap := g)), run.heap, g)
    decreases |s|, 7
  {
    if s == [] {
    } else {
      RecordStatic(sch, sid, s, run, g);
      var o := Record(sch, sid, s, run);
      if o.ok && !o.stopped {
        RecordsStatic(sch, sid, o.rest, o.run, g);
      }
    }
  }

  lemma {:induction false} NoInitStatic(sch: Schema, sid: nat, s: seq<Byte>, m: Store, h: Heap, g: Heap)
    requires WfSchema(sch) && sid < |sch| && StaticMessage(sch, sid)
    ensures SameMessage(DecodeNoInit(sch, sid, s, m, h), DecodeNoInit(sch, sid, s, m, g), h, g)
    decreases |s|, 8
  {
    RecordsStatic(sch, sid, s, Start(m, h), g);
  }

  lemma {:induction false} DecodeStatic(sch: Schema, sid: nat, s: seq<Byte>, m: Store, h: Heap, g: Heap)
    requires WfSchema(sch) && sid < |sch| && StaticMessage(sch, sid)
    ensures SameMessage(Decode(sch, sid, s, m, h), Decode(sch, sid, s, m, g), h, g)
    decreases |s|, 9
  {
    var m0 := Initialised(sch, sid, m);
    NoInitStatic(sch, sid, s, m0, h, g);
    var o := DecodeNoInit(sch, sid, s, m0, h);
    ReleaseStructStatic(sch, sid, Sub(o.store), h, g);
    ReleaseStructStatic(sch, sid, Sub(o.store), h, h);
  }
}
