/** Decoding what pb_encode emits for a valid struct gives an equal struct and consumes
    every byte, for every descriptor, with pointers and recursive ones included. */
module RoundTrip {
  import opened Bits
  import Varint
  import opened Descriptor
  import opened Scalars
  import opened Defaults
  import opened Allocator
  import Release
  import opened EncodeSpec
  import D = DecodeSpec
  import opened Merge
  import opened Structs
  import opened Received
  import opened Settling
  import opened Arrays
  import opened HeapArrays
  import opened StaticOnly

  // ------------------------------------------------------------- one value

  lemma {:induction false} UpToNulAll(b: seq<Byte>, max: nat)
    requires NoNul(b) && |b| <= max
    ensures UpToNul(b, max) == b
  {
    if b == [] {
    } else {
      UpToNulAll(b[1..], max - 1);
    }
  }

  lemma BufferRoundTrip(f: Field, b: seq<Byte>, t: seq<Byte>, dest: Slot, h: Heap)
    requires f.atype.Static? && (f.ltype.Bytes? || f.ltype.String?) && f.dataSize <= PB_SIZE_MAX
    requires if f.ltype.Bytes? then BYTES_HEADER + |b| <= f.dataSize else |b| < f.dataSize
    ensures D.DecBuffer(f, EncString(b) + t, dest, h) == D.ValueOut(true, t, Buf(b), h)
  {
    hide Varint.Varint32, EncString, U32, AllocateField;
    StringParsed(b, t);
    U32Small(|b| + 1);
  }

  lemma FixedBytesRoundTrip(f: Field, b: seq<Byte>, t: seq<Byte>, dest: Slot, h: Heap)
    requires 0 < f.dataSize <= PB_SIZE_MAX && |b| == f.dataSize
    ensures D.DecFixedBytes(f, EncString(b) + t, dest, h) == D.ValueOut(true, t, Buf(b), h)
  {
    StringParsed(b, t);
  }

  /** An item that is not a submessage, decoded where it is. */
  lemma PlainRoundTrip(sch: Schema, sid: nat, i: nat, x: Slot, t: seq<Byte>, dest: Slot, h: Heap)
    requires WfSchema(sch) && sid < |sch| && i < |sch[sid]|
    requires ValidItem(sch, sid, i, x) && !sch[sid][i].ltype.SubMessage? && !OwnBuffer(sch[sid][i])
    ensures Release.KnownRef(sch, sch[sid][i]) && EncValue(sch, sch[sid][i], x).ok
    ensures D.DecValue(sch, sch[sid][i], EncValue(sch, sch[sid][i], x).out + t, dest, h) == D.ValueOut(true, t, x, h)
  {
    var f := sch[sid][i];
    assert WfMessage(sch, sid) && OkField(sch, sid, i);
    if Packable(f.ltype) {
      ScalarRoundTrip(f, x.n, t, dest);
    } else if f.ltype.FixedLengthBytes? {
      FixedBytesRoundTrip(f, x.bytes, t, dest, h);
    } else {
      if f.ltype.String? {
        UpToNulAll(x.bytes, f.dataSize);
      }
      BufferRoundTrip(f, x.bytes, t, dest, h);
    }
  }

  /** A heap string or bytes array. */
  lemma BufferTarget(sch: Schema, sid: nat, i: nat, x: Slot, t: seq<Byte>, dest: Slot, h: Heap)
    requires WfSchema(sch) && sid < |sch| && i < |sch[sid]| && Generous(h)
    requires ValidItem(sch, sid, i, x) && OwnBuffer(sch[sid][i])
    ensures Release.KnownRef(sch, sch[sid][i]) && EncValue(sch, sch[sid][i], x).ok
    ensures var v := D.DecValue(sch, sch[sid][i], EncValue(sch, sch[sid][i], x).out + t, dest, h);
            v.ok && v.rest == t && v.slot.Block? && v.slot.cells == [x] && Generous(v.heap)
  {
    hide D.DecValue;
    var f := sch[sid][i];
    assert WfMessage(sch, sid) && OkField(sch, sid, i);
    if f.ltype.String? {
      UpToNulAll(x.bytes, SIZE_MAX);
    }
    HeapString(sch, f, x.bytes, t, dest, h);
  }

  /** A null pointer to a string is sent, and arrives, as an empty string. */
  lemma NullTarget(sch: Schema, f: Field, t: seq<Byte>, dest: Slot, h: Heap)
    requires WfSchema(sch) && Release.KnownRef(sch, f) && OwnBuffer(f) && Generous(h)
    ensures var v := D.DecValue(sch, f, [0] + t, dest, h);
            v.ok && v.rest == t && v.slot.Block? && v.slot.cells == [Buf([])] && Generous(v.heap)
  {
    hide D.DecValue;
    U32Small(0);
    assert EncString([]) == [0];
    HeapString(sch, f, [], t, dest, h);
  }

  /** Where a submessage is decoded: an array entry only needs the right layout,
      any other destination is at its defaults. */
  predicate Receptive(sch: Schema, sid: nat, i: nat, dest: Slot)
    requires WfSchema(sch) && sid < |sch| && i < |sch[sid]|
  {
    var f := sch[sid][i];
    assert WfMessage(sch, sid) && OkField(sch, sid, i);
    f.ltype.SubMessage? ==>
      && dest.Sub?
      && (if f.htype.Repeated? then Shaped(sch, f.ptr.id, dest.members) else AtDefault(sch, f.ptr.id, dest.members))
  }

  /** A submessage decoder looks at the announced bytes only. */
  lemma SubIsBody(sch: Schema, f: Field, body: seq<Byte>, t: seq<Byte>, dest: Slot, h: Heap)
    requires WfSchema(sch) && Release.KnownRef(sch, f) && f.ltype.SubMessage? && f.ptr.Fields? && dest.Sub?
    requires |body| < TWO32
    ensures var start := if f.htype.Repeated? then Initialised(sch, f.ptr.id, dest.members) else dest.members;
            var m := D.DecodeNoInit(sch, f.ptr.id, body, start, h);
            m.ok ==> D.DecValue(sch, f, EncString(body) + t, dest, h) == D.ValueOut(true, t, Sub(m.store), m.heap)
  {
    ChunkRoundTrip(body, t);
    var s := EncString(body) + t;
    assert D.DecValue(sch, f, s, dest, h) == D.DecSub(sch, f, s, dest, h);
    if f.htype.Repeated? {
      var start := Initialised(sch, f.ptr.id, dest.members);
      assert D.DecodeNoInit(sch, f.ptr.id, body, start, h).ok ==>
          D.Decode(sch, f.ptr.id, body, dest.members, h) == D.DecodeNoInit(sch, f.ptr.id, body, start, h);
    }
  }

  lemma {:induction false} ItemRoundTrip(sch: Schema, sid: nat, i: nat, x: Slot, t: seq<Byte>, dest: Slot, h: Heap)
    requires WfSchema(sch) && sid < |sch| && i < |sch[sid]| && Generous(h)
    requires ValidItem(sch, sid, i, x) && Receptive(sch, sid, i, dest) && !OwnBuffer(sch[sid][i])
    ensures Release.KnownRef(sch, sch[sid][i]) && EncValue(sch, sch[sid][i], x).ok
    ensures var v := D.DecValue(sch, sch[sid][i], EncValue(sch, sch[sid][i], x).out + t, dest, h);
            v.ok && v.rest == t && Generous(v.heap) && ReceivedItem(sch, sid, i, x, v.slot)
    decreases x, 6
  {
    var f := sch[sid][i];
    assert WfMessage(sch, sid) && OkField(sch, sid, i);
    if f.ltype.SubMessage? {
      var id := f.ptr.id;
      var start := if f.htype.Repeated? then Initialised(sch, id, dest.members) else dest.members;
      if f.htype.Repeated? {
        InitialisedAtDefault(sch, id, dest.members);
      }
      hide D.DecValue, D.DecodeNoInit, AtDefault, Shaped, ValidStruct, ReceivedStruct;
      MessageRoundTrip(sch, id, x, start, h);
      SubIsBody(sch, f, EncMessage(sch, id, x).out, t, dest, h);
    } else {
      PlainRoundTrip(sch, sid, i, x, t, dest, h);
    }
  }

  // ------------------------------------------------------------- one field

  /** The result of decoding the bytes of one field. */
  ghost predicate Decoded(sch: Schema, sid: nat, i: nat, e: seq<Byte>, run: D.Run, c: Cell)
    requires WfSchema(sch) && sid < |sch| && i < |sch[sid]|
  {
    var o := D.Records(sch, sid, e, run);
    && ToTheEnd(o)
    && o.run.store == PutCell(sch[sid], run.store, i, c)
    && Generous(o.run.heap)
    && o.run.seen == run.seen + D.Seen(sch[sid], i)
    && (D.FixedCount(sch[sid][i]) ==> o.run.fixed == i && o.run.fixedSize == sch[sid][i].arraySize)
    && (!D.FixedCount(sch[sid][i]) ==> o.run.fixed == run.fixed && o.run.fixedSize == run.fixedSize)
  }

  lemma SingleRecord(sch: Schema, sid: nat, i: nat, wire: nat, p: seq<Byte>, run: D.Run)
    requires WfSchema(sch) && sid < |sch| && i < |sch[sid]| && wire < 8
    requires D.KnownRecord(sch, sid, i, wire, p, run).ok && D.KnownRecord(sch, sid, i, wire, p, run).rest == []
    ensures D.Records(sch, sid, EncKey(wire, sch[sid][i].tag) + p, run) ==
            D.KnownRecord(sch, sid, i, wire, p, run).(stopped := false)
  {
    RecordOfField(sch, sid, i, wire, p, run);
    AppendNonEmpty(EncKey(wire, sch[sid][i].tag), p);
  }

  /** The cell a present required, optional or oneof field of the struct decodes to. */
  lemma {:induction false} ValueRoundTrip(sch: Schema, sid: nat, i: nat, x: Slot, run: D.Run) returns (c: Cell)
    requires WfSchema(sch) && sid < |sch| && i < |sch[sid]| && Generous(run.heap)
    requires ValidItem(sch, sid, i, x) && !sch[sid][i].htype.Repeated? && sch[sid][i].atype.Static?
    requires CellAtDefault(sch, sid, i, CellOf(sch[sid], run.store, i))
    ensures Release.KnownRef(sch, sch[sid][i]) && EncTagged(sch, sch[sid][i], x).ok
    ensures Decoded(sch, sid, i, EncTagged(sch, sch[sid][i], x).out, run, c)
    ensures ReceivedItem(sch, sid, i, x, c.data)
    ensures sch[sid][i].htype.OneOf? ==> c.size == Num(sch[sid][i].tag)
    ensures sch[sid][i].htype.Optional? && sch[sid][i].sizeOffset != 0 ==> c.size == Num(1)
    decreases x, 7
  {
    hide EncValue, D.DecValue, D.FieldStep, D.Records, SetDefaults;
    hide ZeroStruct, AtDefault, Shaped, ShapedItem, ReceivedItem;
    hide ValidItem, CellOf, PutCell, WfTable;
    var f := sch[sid][i];
    var at := CellOf(sch[sid], run.store, i);
    assert WfMessage(sch, sid) && OkField(sch, sid, i);
    var dest := if f.htype.OneOf? && f.ltype.SubMessage? then FreshStruct(sch, f.ptr.id) else at.data;
    if f.htype.OneOf? && f.ltype.SubMessage? {
      FreshAtDefault(sch, f.ptr.id);
    }
    ItemRoundTrip(sch, sid, i, x, [], dest, run.heap);
    var p := EncValue(sch, f, x).out;
    assert p + [] == p;
    c := StepCell(sch, sid, i, p, dest, at, run.heap);
    SingleRecord(sch, sid, i, WireType(f.ltype), p, run);
  }

  lemma StepCell(sch: Schema, sid: nat, i: nat, p: seq<Byte>, dest: Slot, at: Cell, h: Heap) returns (c: Cell)
    requires WfSchema(sch) && sid < |sch| && i < |sch[sid]| && sch[sid][i].atype.Static?
    requires Release.KnownRef(sch, sch[sid][i]) && !sch[sid][i].htype.Repeated?
    requires sch[sid][i].htype.OneOf? ==> at.size == Num(0) && sch[sid][i].tag != 0
    requires sch[sid][i].ltype.SubMessage? ==> sch[sid][i].ptr.Fields?
    requires dest == if sch[sid][i].htype.OneOf? && sch[sid][i].ltype.SubMessage?
                     then FreshStruct(sch, sch[sid][i].ptr.id) else at.data
    ensures var f := sch[sid][i];
            var v := D.DecValue(sch, f, p, dest, h);
            && D.FieldStep(sch, sid, i, WireType(f.ltype), p, at, h) == D.StepOut(v.ok, v.rest, c, v.heap)
            && c.data == v.slot
            && (f.htype.OneOf? ==> c.size == Num(f.tag))
            && (f.htype.Optional? && f.sizeOffset != 0 ==> c.size == Num(1))
  {
    c := D.FieldStep(sch, sid, i, WireType(sch[sid][i].ltype), p, at, h).cell;
  }

  // --------------------------------------------------------- pointer fields

  /** The block a null pointer field is decoded into. */
  function Target(sch: Schema, f: Field, p: seq<Byte>, h: Heap): D.ValueOut
    requires WfSchema(sch) && Release.KnownRef(sch, f)
  {
    if OwnBuffer(f) then D.DecValue(sch, f, p, Nil, h)
    else
      var a := AllocateField(h, Nil, f.dataSize, 1);
      if !a.ok then D.ValueOut(false, p, Nil, a.heap)
      else
        var v := D.DecValue(sch, f, p, D.NewItem(sch, f, ItemAt(Items(a.slot), 0)), a.heap);
        D.ValueOut(v.ok, v.rest, D.WithItem(a.slot, 0, v.slot), v.heap)
  }

  lemma TargetStep(sch: Schema, sid: nat, i: nat, p: seq<Byte>, at: Cell, h: Heap)
    requires WfSchema(sch) && sid < |sch| && i < |sch[sid]| && sch[sid][i].atype.Pointer?
    requires !sch[sid][i].htype.Repeated? && CellAtDefault(sch, sid, i, at)
    ensures Release.KnownRef(sch, sch[sid][i])
    ensures var f := sch[sid][i];
            var v := Target(sch, f, p, h);
            var o := D.FieldStep(sch, sid, i, WireType(f.ltype), p, at, h);
            && o.ok == v.ok && (v.ok ==> o.rest == v.rest) && o.heap == v.heap
            && o.cell == Cell(v.slot, if f.htype.OneOf? then Num(f.tag) else at.size)
  {
    hide AllocateField, D.DecValue, D.NewItem;
    var f := sch[sid][i];
    assert WfMessage(sch, sid) && OkField(sch, sid, i);
    assert at.data.Nil?;
    assert D.FieldStep(sch, sid, i, WireType(f.ltype), p, at, h) ==
           D.PointerStep(sch, f, WireType(f.ltype), p, at, h) ==
           D.PointerOne(sch, f, p, at, h);
  }

  /** The item goes to a new block. */
  lemma {:induction false} TargetRoundTrip(sch: Schema, sid: nat, i: nat, x: Slot, t: seq<Byte>, h: Heap)
    requires WfSchema(sch) && sid < |sch| && i < |sch[sid]| && Generous(h) && sch[sid][i].atype.Pointer?
    requires ValidItem(sch, sid, i, x)
    ensures Release.KnownRef(sch, sch[sid][i]) && EncValue(sch, sch[sid][i], x).ok
    ensures var v := Target(sch, sch[sid][i], EncValue(sch, sch[sid][i], x).out + t, h);
            && v.ok && v.rest == t && Generous(v.heap)
            && v.slot.Block? && |v.slot.cells| == 1 && ReceivedItem(sch, sid, i, x, v.slot.cells[0])
    decreases x, 7
  {
    hide D.DecValue, EncValue, AllocateField, FreshStruct;
    var f := sch[sid][i];
    assert WfMessage(sch, sid) && OkField(sch, sid, i);
    if OwnBuffer(f) {
      BufferTarget(sch, sid, i, x, t, Nil, h);
    } else {
      Granted(h, Nil, f.dataSize, 1);
      var a := AllocateField(h, Nil, f.dataSize, 1);
      var dest := D.NewItem(sch, f, ItemAt(Items(a.slot), 0));
      NewIsReceptive(sch, sid, i, ItemAt(Items(a.slot), 0));
      hide D.NewItem, Receptive;
      ItemRoundTrip(sch, sid, i, x, t, dest, a.heap);
    }
  }

  lemma NewIsReceptive(sch: Schema, sid: nat, i: nat, was: Slot)
    requires WfSchema(sch) && sid < |sch| && i < |sch[sid]|
    ensures Release.KnownRef(sch, sch[sid][i]) && Receptive(sch, sid, i, D.NewItem(sch, sch[sid][i], was))
  {
    var f := sch[sid][i];
    assert WfMessage(sch, sid) && OkField(sch, sid, i);
    if f.ltype.SubMessage? {
      FreshAtDefault(sch, f.ptr.id);
      DefaultIsShaped(sch, f.ptr.id, FreshStruct(sch, f.ptr.id).members);
    }
  }

  /** What a pointer stands for on the wire, behind the key. */
  function TargetBytes(sch: Schema, f: Field, x: Slot): seq<Byte>
    requires WfSchema(sch) && Release.KnownRef(sch, f)
  {
    if x.Block? && x.cells != [] then EncValue(sch, f, x.cells[0]).out else [0]
  }

  /** A pointer, or a null pointer to a string, arrives as a new block. */
  lemma {:induction false} PointerArrives(sch: Schema, sid: nat, i: nat, x: Slot, t: seq<Byte>, h: Heap)
    requires WfSchema(sch) && sid < |sch| && i < |sch[sid]| && Generous(h) && sch[sid][i].atype.Pointer?
    requires ValidTarget(sch, sid, i, x) || (OwnBuffer(sch[sid][i]) && x.Nil?)
    ensures Release.KnownRef(sch, sch[sid][i])
    ensures EncTarget(sch, sch[sid][i], x) ==
            Emit(true, EncKey(WireType(sch[sid][i].ltype), sch[sid][i].tag) + TargetBytes(sch, sch[sid][i], x))
    ensures var v := Target(sch, sch[sid][i], TargetBytes(sch, sch[sid][i], x) + t, h);
            v.ok && v.rest == t && Generous(v.heap) && ReceivedTarget(sch, sid, i, x, v.slot)
    decreases x, 8
  {
    hide D.DecValue, EncValue, AllocateField;
    var f := sch[sid][i];
    assert WfMessage(sch, sid) && OkField(sch, sid, i);
    if x.Nil? {
      NullTarget(sch, f, t, Nil, h);
    } else {
      TargetRoundTrip(sch, sid, i, x.cells[0], t, h);
    }
  }

  /** The cell a present required, optional or oneof pointer field decodes to. */
  lemma {:induction false} PointerRoundTrip(sch: Schema, sid: nat, i: nat, x: Slot, run: D.Run) returns (c: Cell)
    requires WfSchema(sch) && sid < |sch| && i < |sch[sid]| && Generous(run.heap)
    requires sch[sid][i].atype.Pointer? && !sch[sid][i].htype.Repeated?
    requires ValidTarget(sch, sid, i, x) || (OwnBuffer(sch[sid][i]) && x.Nil?)
    requires CellAtDefault(sch, sid, i, CellOf(sch[sid], run.store, i))
    ensures Release.KnownRef(sch, sch[sid][i]) && EncTarget(sch, sch[sid][i], x).ok
    ensures Decoded(sch, sid, i, EncTarget(sch, sch[sid][i], x).out, run, c)
    ensures ReceivedTarget(sch, sid, i, x, c.data)
    ensures sch[sid][i].htype.OneOf? ==> c.size == Num(sch[sid][i].tag)
    decreases x, 9
  {
    hide EncTarget, TargetBytes, Target, ReceivedTarget, CellAtDefault;
    var f := sch[sid][i];
    var at := CellOf(sch[sid], run.store, i);
    PointerArrives(sch, sid, i, x, [], run.heap);
    var p := TargetBytes(sch, f, x);
    assert p + [] == p;
    TargetStep(sch, sid, i, p, at, run.heap);
    c := D.FieldStep(sch, sid, i, WireType(f.ltype), p, at, run.heap).cell;
    hide D.FieldStep;
    SingleRecord(sch, sid, i, WireType(f.ltype), p, run);
  }

  // ------------------------------------------------------- repeated fields

  function Numbers(xs: seq<Slot>, n: nat): (r: seq<int>)
    requires n <= |xs|
    ensures |r| == n
  {
    seq(n, k requires 0 <= k < n => Number(xs[k]))
  }

  lemma {:induction false} NumsConcat(f: Field, a: seq<int>, b: seq<int>)
    ensures EncNums(f, a + b) == EncNums(f, a) + EncNums(f, b)
  {
    if a == [] {
      assert a + b == b;
    } else {
      assert (a + b)[1..] == a[1..] + b;
      NumsConcat(f, a[1..], b);
    }
  }

  lemma NumsOne(f: Field, e: int)
    ensures EncNums(f, [e]) == EncScalar(f, Num(e)).out
  {
    assert [e][1..] == [];
    assert EncScalar(f, Num(e)).out + [] == EncScalar(f, Num(e)).out;
  }

  /** The block of a packed field, element by element. */
  lemma {:induction false} ScalarsAreNums(f: Field, xs: seq<Slot>, n: nat)
    requires WfWidth(f) && Packable(f.ltype) && n <= |xs|
    requires forall k :: 0 <= k < n ==> xs[k].Num? && InRange(f, xs[k].n)
    ensures EncScalars(f, xs, n) == Emit(true, EncNums(f, Numbers(xs, n)))
    ensures AllInRange(f, Numbers(xs, n))
  {
    if n == 0 {
    } else {
      ScalarsAreNums(f, xs, n - 1);
      assert Numbers(xs, n) == Numbers(xs, n - 1) + [xs[n - 1].n];
      NumsConcat(f, Numbers(xs, n - 1), [xs[n - 1].n]);
      NumsOne(f, xs[n - 1].n);
      ScalarRoundTrip(f, xs[n - 1].n, [], Undef);
    }
  }

  lemma PackedIsPart(f: Field, xs: seq<Slot>, n: nat)
    requires WfWidth(f) && Packable(f.ltype) && n <= |xs|
    requires forall k :: 0 <= k < n ==> xs[k].Num? && InRange(f, xs[k].n)
    requires |EncScalars(f, xs, n).out| < TWO32
    requires 1 <= f.tag < 0x2000_0000
    ensures EncPacked(f, xs, n) == Emit(true, PackedRecord(f, Numbers(xs, n)))
    ensures Carries(f, PackedRecord(f, Numbers(xs, n)), Numbers(xs, n))
  {
    ScalarsAreNums(f, xs, n);
    hide EncScalars, EncNums, Carries;
    EncodedCarries(f, Numbers(xs, n));
  }

  lemma ScalarEntries(sch: Schema, sid: nat, i: nat, xs: seq<Slot>, n: nat)
    requires WfSchema(sch) && sid < |sch| && i < |sch[sid]| && Packable(sch[sid][i].ltype)
    requires ValidItems(sch, sid, i, xs, n)
    ensures forall k :: 0 <= k < n ==> xs[k].Num? && InRange(sch[sid][i], xs[k].n)
  {
    hide InRange, EncScalars;
    forall k | 0 <= k < n ensures xs[k].Num? && InRange(sch[sid][i], xs[k].n) {
      assert ValidEntry(sch, sid, i, xs[k]);
      assert ValidItem(sch, sid, i, xs[k]);
    }
  }

  lemma ScalarsArrive(sch: Schema, sid: nat, i: nat, xs: seq<Slot>, ys: seq<Slot>, n: nat)
    requires WfSchema(sch) && sid < |sch| && i < |sch[sid]| && Packable(sch[sid][i].ltype)
    requires n <= |xs| && n <= |ys| && forall k :: 0 <= k < n ==> xs[k] == ys[k]
    ensures ReceivedItems(sch, sid, i, xs, ys, n)
  {
    forall k | 0 <= k < n ensures ReceivedEntry(sch, sid, i, xs[k], ys[k]) {
      assert ReceivedItem(sch, sid, i, xs[k], ys[k]);
    }
  }

  /** A packed field fills the array with the elements of the original. */
  lemma PackedRoundTrip(sch: Schema, sid: nat, i: nat, xs: seq<Slot>, n: nat, items: seq<Slot>, run: D.Run)
    returns (c: Cell)
    requires WfSchema(sch) && sid < |sch| && i < |sch[sid]| && Generous(run.heap)
    requires ScalarArray(sch, sid, i) && ValidItems(sch, sid, i, xs, n) && |items| == sch[sid][i].arraySize
    requires Ready(sch[sid], run, i, 0) && CellOf(sch[sid], run.store, i).data == Arr(items)
    requires D.FixedCount(sch[sid][i]) ==> n == sch[sid][i].arraySize
    ensures EncPacked(sch[sid][i], xs, n).ok && Decoded(sch, sid, i, EncPacked(sch[sid][i], xs, n).out, run, c)
    ensures c.data.Arr? && c.size == Num(n) && ReceivedItems(sch, sid, i, xs, c.data.items, n)
  {
    hide D.Record, EncScalars, EncNums, PackedRecord, InRange, Carries, Write;
    var f := sch[sid][i];
    assert WfMessage(sch, sid) && OkField(sch, sid, i);
    ScalarEntries(sch, sid, i, xs, n);
    PackedIsPart(f, xs, n);
    var es := Numbers(xs, n);
    var part := Part(PackedRecord(f, es), es);
    OnePart(part);
    AnyMixture(sch, sid, i, [part], items, 0, run);
    c := Cell(Arr(Write(items, 0, es)), Num(n));
    assert run.seen + D.Seen(sch[sid], i) == run.seen;
    forall k | 0 <= k < n ensures xs[k] == c.data.items[k] {
      WriteAt(items, 0, es, k);
    }
    ScalarsArrive(sch, sid, i, xs, c.data.items, n);
  }

  /** `k` entries of an unpacked field have been decoded. */
  ghost predicate Entered(sch: Schema, sid: nat, i: nat, xs: seq<Slot>, k: nat, was: D.Run, now: D.Run, ys: seq<Slot>)
    requires WfSchema(sch) && sid < |sch| && i < |sch[sid]|
  {
    && Ready(sch[sid], now, i, k) && CellOf(sch[sid], now.store, i).data == Arr(ys)
    && |ys| == sch[sid][i].arraySize && ReceivedItems(sch, sid, i, xs, ys, k)
    && (forall j :: k <= j < |ys| ==> ShapedItem(sch, sid, i, ys[j]))
    && Generous(now.heap) && now.seen == was.seen
    && (if k == 0 then now == was else now.store == PutCell(sch[sid], was.store, i, Cell(Arr(ys), Num(k))))
    && (if D.FixedCount(sch[sid][i]) then k > 0 ==> now.fixed == i && now.fixedSize == k
        else now.fixed == was.fixed && now.fixedSize == was.fixedSize)
  }

  lemma ReceivedMore(sch: Schema, sid: nat, i: nat, xs: seq<Slot>, ys: seq<Slot>, zs: seq<Slot>, k: nat)
    requires WfSchema(sch) && sid < |sch| && i < |sch[sid]| && ReceivedItems(sch, sid, i, xs, ys, k)
    requires k < |xs| && k < |zs| && (forall j :: 0 <= j < k ==> zs[j] == ys[j])
    requires ReceivedEntry(sch, sid, i, xs[k], zs[k])
    ensures ReceivedItems(sch, sid, i, xs, zs, k + 1)
  {
    hide ReceivedEntry;
  }

  lemma EntryShaped(sch: Schema, sid: nat, i: nat, y: Slot)
    requires WfSchema(sch) && sid < |sch| && i < |sch[sid]| && sch[sid][i].atype.Static? && sch[sid][i].htype.Repeated?
    requires ShapedItem(sch, sid, i, y)
    ensures Receptive(sch, sid, i, y)
  {
    assert WfMessage(sch, sid) && OkField(sch, sid, i);
    hide Shaped, AtDefault;
  }

  lemma {:induction false} EntryStep(sch: Schema, sid: nat, i: nat, xs: seq<Slot>, k: nat, was: D.Run, now: D.Run,
                                     ys: seq<Slot>) returns (zs: seq<Slot>)
    requires WfSchema(sch) && sid < |sch| && i < |sch[sid]|
    requires sch[sid][i].htype.Repeated? && sch[sid][i].atype.Static? && !Packable(sch[sid][i].ltype)
    requires k < |xs| && k < sch[sid][i].arraySize && ValidItem(sch, sid, i, xs[k])
    requires Entered(sch, sid, i, xs, k, was, now, ys)
    ensures Release.KnownRef(sch, sch[sid][i]) && EncTagged(sch, sch[sid][i], xs[k]).ok
    ensures var o := D.Records(sch, sid, EncTagged(sch, sch[sid][i], xs[k]).out, now);
            ToTheEnd(o) && Entered(sch, sid, i, xs, k + 1, was, o.run, zs)
    decreases xs, 0
  {
    hide EncValue, D.DecValue, D.Records, D.KnownRecord, ReceivedItem;
    hide ReceivedItems, ValidItem, PutCell, CellOf, ShapedItem;
    var f := sch[sid][i];
    EntryShaped(sch, sid, i, ys[k]);
    ItemRoundTrip(sch, sid, i, xs[k], [], ys[k], now.heap);
    var p := EncValue(sch, f, xs[k]).out;
    assert p + [] == p;
    RepeatedStep(sch, sid, i, WireType(f.ltype), p, Cell(Arr(ys), Num(k)), now.heap);
    RepeatedRecord(sch, sid, i, WireType(f.ltype), p, now, k);
    var v := D.DecValue(sch, f, p, ys[k], now.heap);
    zs := ys[k := v.slot];
    ReceivedMore(sch, sid, i, xs, ys, zs, k);
    SingleRecord(sch, sid, i, WireType(f.ltype), p, now);
    var o := D.Records(sch, sid, EncTagged(sch, f, xs[k]).out, now);
    StillReady(sch, sid, i, o.run, Arr(zs), k + 1, now.store);
    if k > 0 {
      PutTwice(sch[sid], was.store, i, Cell(Arr(ys), Num(k)), Cell(Arr(zs), Num(k + 1)));
    }
  }

  lemma {:induction false} EntriesRoundTrip(sch: Schema, sid: nat, i: nat, xs: seq<Slot>, k: nat, run: D.Run,
                                            items: seq<Slot>) returns (ys: seq<Slot>)
    requires WfSchema(sch) && sid < |sch| && i < |sch[sid]|
    requires sch[sid][i].htype.Repeated? && sch[sid][i].atype.Static? && !Packable(sch[sid][i].ltype)
    requires ValidItems(sch, sid, i, xs, k) && Entered(sch, sid, i, xs, 0, run, run, items)
    ensures Release.KnownRef(sch, sch[sid][i]) && EncEntries(sch, sch[sid][i], xs, k).ok
    ensures var o := D.Records(sch, sid, EncEntries(sch, sch[sid][i], xs, k).out, run);
            ToTheEnd(o) && Entered(sch, sid, i, xs, k, run, o.run, ys)
    decreases xs, 1, k
  {
    hide D.Record, EncTagged, D.FieldStep;
    var f := sch[sid][i];
    assert WfMessage(sch, sid) && OkField(sch, sid, i);
    if k == 0 {
      ys := items;
    } else {
      assert ValidEntry(sch, sid, i, xs[k - 1]);
      var mid := EntriesRoundTrip(sch, sid, i, xs, k - 1, run, items);
      var head := EncEntries(sch, f, xs, k - 1).out;
      var now := D.Records(sch, sid, head, run).run;
      ys := EntryStep(sch, sid, i, xs, k - 1, run, now, mid);
      RecordsConcat(sch, sid, head, EncTagged(sch, f, xs[k - 1]).out, run);
    }
  }

  // --------------------------------------------------- repeated pointer fields

  /** `k` entries of an unpacked heap array have been decoded. */
  ghost predicate HeapEntered(sch: Schema, sid: nat, i: nat, xs: seq<Slot>, k: nat, was: D.Run, now: D.Run)
    requires WfSchema(sch) && sid < |sch| && i < |sch[sid]|
  {
    var c := CellOf(sch[sid], now.store, i);
    && c.size == Num(k) && (c.data.Nil? || c.data.Block?) && k <= |Items(c.data)|
    && ReceivedItems(sch, sid, i, xs, Items(c.data), k)
    && Generous(now.heap) && now.seen == was.seen && now.fixed == was.fixed && now.fixedSize == was.fixedSize
    && (if k == 0 then now == was else now.store == PutCell(sch[sid], was.store, i, c))
  }

  /** The wire form of an entry, behind the key. */
  function EntryBytes(sch: Schema, f: Field, x: Slot): seq<Byte>
    requires WfSchema(sch) && Release.KnownRef(sch, f)
  {
    if OwnBuffer(f) then TargetBytes(sch, f, x) else EncValue(sch, f, x).out
  }

  /** An entry that is decoded into the last place of a block. */
  lemma {:induction false} EntryArrives(sch: Schema, sid: nat, i: nat, x: Slot, t: seq<Byte>, was: Slot, h: Heap)
    requires WfSchema(sch) && sid < |sch| && i < |sch[sid]| && Generous(h) && sch[sid][i].atype.Pointer?
    requires ValidEntry(sch, sid, i, x)
    ensures Release.KnownRef(sch, sch[sid][i])
    ensures var f := sch[sid][i];
            (if OwnBuffer(f) then EncTarget(sch, f, x) else EncTagged(sch, f, x)) ==
            Emit(true, EncKey(WireType(f.ltype), f.tag) + EntryBytes(sch, f, x))
    ensures var f := sch[sid][i];
            var v := D.DecValue(sch, f, EntryBytes(sch, f, x) + t, D.NewItem(sch, f, was), h);
            v.ok && v.rest == t && Generous(v.heap) && ReceivedEntry(sch, sid, i, x, v.slot)
    decreases x, 9
  {
    hide D.DecValue, EncValue, FreshStruct, ReceivedTarget, ReceivedItem;
    var f := sch[sid][i];
    if OwnBuffer(f) {
      PointerArrives(sch, sid, i, x, t, h);
    } else {
      NewIsReceptive(sch, sid, i, was);
      hide D.NewItem, Receptive;
      ItemRoundTrip(sch, sid, i, x, t, D.NewItem(sch, f, was), h);
    }
  }

  /** What the record of an entry does to the cell of its array. */
  lemma {:induction false} HeapEntryStep(sch: Schema, sid: nat, i: nat, xs: seq<Slot>, k: nat, at: Cell, h: Heap)
    returns (c: Cell, g: Heap)
    requires WfSchema(sch) && sid < |sch| && i < |sch[sid]| && Generous(h)
    requires sch[sid][i].htype.Repeated? && sch[sid][i].atype.Pointer? && !Packable(sch[sid][i].ltype)
    requires k < |xs| && k < PB_SIZE_MAX && ValidEntry(sch, sid, i, xs[k])
    requires at.size == Num(k) && k <= |Items(at.data)| && ReceivedItems(sch, sid, i, xs, Items(at.data), k)
    ensures Release.KnownRef(sch, sch[sid][i])
    ensures var f := sch[sid][i];
            D.FieldStep(sch, sid, i, WireType(f.ltype), EntryBytes(sch, f, xs[k]), at, h) == D.StepOut(true, [], c, g)
    ensures c.size == Num(k + 1) && c.data.Block? && k + 1 <= |c.data.cells| && Generous(g)
    ensures ReceivedItems(sch, sid, i, xs, Items(c.data), k + 1)
    decreases xs, 0
  {
    hide D.DecValue, EncValue, EntryBytes, D.NewItem, AllocateField, ReceivedEntry, ReceivedItems, ValidEntry;
    var f := sch[sid][i];
    assert WfMessage(sch, sid) && OkField(sch, sid, i);
    Granted(h, at.data, f.dataSize, k + 1);
    var a := AllocateField(h, at.data, f.dataSize, k + 1);
    EntryArrives(sch, sid, i, xs[k], [], ItemAt(Items(a.slot), k), a.heap);
    var p := EntryBytes(sch, f, xs[k]);
    assert p + [] == p;
    var v := D.DecValue(sch, f, p, D.NewItem(sch, f, ItemAt(Items(a.slot), k)), a.heap);
    c, g := Cell(D.WithItem(a.slot, k, v.slot), Num(k + 1)), v.heap;
    assert D.FieldStep(sch, sid, i, WireType(f.ltype), p, at, h) ==
           D.PointerStep(sch, f, WireType(f.ltype), p, at, h) ==
           D.PointerSingle(sch, f, p, at, h);
    ReceivedMore(sch, sid, i, xs, Items(at.data), Items(c.data), k);
  }

  lemma {:induction false} HeapEntryRecord(sch: Schema, sid: nat, i: nat, xs: seq<Slot>, k: nat, was: D.Run, now: D.Run)
    requires WfSchema(sch) && sid < |sch| && i < |sch[sid]|
    requires sch[sid][i].htype.Repeated? && sch[sid][i].atype.Pointer? && !Packable(sch[sid][i].ltype)
    requires k < |xs| && k < PB_SIZE_MAX && ValidEntry(sch, sid, i, xs[k])
    requires HeapEntered(sch, sid, i, xs, k, was, now)
    ensures Release.KnownRef(sch, sch[sid][i])
    ensures var f := sch[sid][i];
            var e := if OwnBuffer(f) then EncTarget(sch, f, xs[k]) else EncTagged(sch, f, xs[k]);
            var o := D.Records(sch, sid, e.out, now);
            e.ok && ToTheEnd(o) && HeapEntered(sch, sid, i, xs, k + 1, was, o.run)
    decreases xs, 1
  {
    hide D.DecValue, EncValue, EntryBytes, EncTarget, EncTagged, D.FieldStep, ReceivedItems, ValidEntry, ReceivedEntry;
    var f, at := sch[sid][i], CellOf(sch[sid], now.store, i);
    assert WfMessage(sch, sid) && OkField(sch, sid, i);
    EntryArrives(sch, sid, i, xs[k], [], Nil, now.heap);
    var p := EntryBytes(sch, f, xs[k]);
    var c, g := HeapEntryStep(sch, sid, i, xs, k, at, now.heap);
    RepeatedRecord(sch, sid, i, WireType(f.ltype), p, now, k);
    SingleRecord(sch, sid, i, WireType(f.ltype), p, now);
    hide D.Records, D.KnownRecord;
    PutThenGet(sch, sid, now.store, i, c);
    if k > 0 {
      PutTwice(sch[sid], was.store, i, at, c);
    }
  }

  lemma {:induction false} HeapEntriesRoundTrip(sch: Schema, sid: nat, i: nat, xs: seq<Slot>, k: nat, run: D.Run)
    requires WfSchema(sch) && sid < |sch| && i < |sch[sid]|
    requires sch[sid][i].htype.Repeated? && sch[sid][i].atype.Pointer? && !Packable(sch[sid][i].ltype)
    requires ValidItems(sch, sid, i, xs, k) && HeapEntered(sch, sid, i, xs, 0, run, run)
    ensures Release.KnownRef(sch, sch[sid][i]) && EncEntries(sch, sch[sid][i], xs, k).ok
    ensures var o := D.Records(sch, sid, EncEntries(sch, sch[sid][i], xs, k).out, run);
            ToTheEnd(o) && HeapEntered(sch, sid, i, xs, k, run, o.run)
    decreases xs, 2, k
  {
    hide D.Record, EncTagged, EncTarget, HeapEntered, ValidEntry;
    var f := sch[sid][i];
    assert WfMessage(sch, sid) && OkField(sch, sid, i);
    if k == 0 {
    } else {
      HeapEntriesRoundTrip(sch, sid, i, xs, k - 1, run);
      var head := EncEntries(sch, f, xs, k - 1).out;
      var now := D.Records(sch, sid, head, run).run;
      HeapEntryRecord(sch, sid, i, xs, k - 1, run, now);
      var e := if OwnBuffer(f) then EncTarget(sch, f, xs[k - 1]) else EncTagged(sch, f, xs[k - 1]);
      RecordsConcat(sch, sid, head, e.out, run);
    }
  }

  /** A packed heap array. */
  lemma HeapPackedRoundTrip(sch: Schema, sid: nat, i: nat, xs: seq<Slot>, n: nat, run: D.Run) returns (c: Cell)
    requires WfSchema(sch) && sid < |sch| && i < |sch[sid]| && HeapScalars(sch, sid, i) && Generous(run.heap)
    requires ValidItems(sch, sid, i, xs, n) && CellOf(sch[sid], run.store, i) == Cell(Nil, Num(0))
    ensures EncPacked(sch[sid][i], xs, n).ok && Decoded(sch, sid, i, EncPacked(sch[sid][i], xs, n).out, run, c)
    ensures c.size == Num(n) && ReceivedItems(sch, sid, i, xs, Items(c.data), n)
  {
    hide EncScalars, EncNums, InRange, Carries, D.FieldStep;
    var f := sch[sid][i];
    assert WfMessage(sch, sid) && OkField(sch, sid, i);
    ScalarEntries(sch, sid, i, xs, n);
    PackedIsPart(f, xs, n);
    var es := Numbers(xs, n);
    var part := Part(PackedRecord(f, es), es);
    var block := EncString(EncNums(f, es));
    KeyRoundTrip(WT_STRING, f.tag, block);
    assert block + [] == block;
    PartAppended(sch, sid, i, part, [], Nil, 0, run.heap);
    c := D.FieldStep(sch, sid, i, WT_STRING, block, Cell(Nil, Num(0)), run.heap).cell;
    RepeatedRecord(sch, sid, i, WT_STRING, block, run, 0);
    SingleRecord(sch, sid, i, WT_STRING, block, run);
    assert run.seen + D.Seen(sch[sid], i) == run.seen;
    HeapFront(xs, n, es, c.data);
    ScalarsArrive(sch, sid, i, xs, Items(c.data), n);
  }

  lemma HeapFront(xs: seq<Slot>, n: nat, es: seq<int>, data: Slot)
    requires n <= |xs| && es == Numbers(xs, n) && n <= |Items(data)| && Front(data, n) == Front(Nil, 0) + AsSlots(es)
    requires forall k :: 0 <= k < n ==> xs[k].Num?
    ensures forall k :: 0 <= k < n ==> xs[k] == Items(data)[k]
  {
    forall k | 0 <= k < n ensures xs[k] == Items(data)[k] {
      assert Front(data, n)[k] == AsSlots(es)[k];
    }
  }

  lemma {:induction false} HeapArrayRoundTrip(sch: Schema, sid: nat, i: nat, a: Cell, run: D.Run) returns (c: Cell)
    requires WfSchema(sch) && sid < |sch| && i < |sch[sid]| && Generous(run.heap)
    requires ValidCell(sch, sid, i, a) && CellAtDefault(sch, sid, i, CellOf(sch[sid], run.store, i))
    requires Release.KnownRef(sch, sch[sid][i]) && Emitted(sch, sch[sid][i], a)
    requires sch[sid][i].htype.Repeated? && sch[sid][i].atype.Pointer?
    ensures EncField(sch, sch[sid][i], a.data, a.size).ok
    ensures Decoded(sch, sid, i, EncField(sch, sch[sid][i], a.data, a.size).out, run, c)
    ensures ReceivedCell(sch, sid, i, a, NormalCell(sch[sid][i], c))
    decreases a.data, 10
  {
    var f := sch[sid][i];
    assert WfMessage(sch, sid) && OkField(sch, sid, i);
    assert ValidPointer(sch, sid, i, a);
    var at := CellOf(sch[sid], run.store, i);
    var xs, n := a.data.cells, a.size.n;
    hide D.Records, EncScalars, ValidItems, ReceivedItems, EncEntries;
    if Packable(f.ltype) {
      c := HeapPackedRoundTrip(sch, sid, i, xs, n, run);
    } else {
      assert ReceivedItems(sch, sid, i, xs, [], 0) by { NothingReceived(sch, sid, i, xs); }
      HeapEntriesRoundTrip(sch, sid, i, xs, n, run);
      var o := D.Records(sch, sid, EncEntries(sch, f, xs, n).out, run);
      c := CellOf(sch[sid], o.run.store, i);
      assert run.seen + D.Seen(sch[sid], i) == run.seen;
    }
  }

  lemma NothingReceived(sch: Schema, sid: nat, i: nat, xs: seq<Slot>)
    requires WfSchema(sch) && sid < |sch| && i < |sch[sid]|
    ensures ReceivedItems(sch, sid, i, xs, [], 0)
  {
  }

  // ------------------------------------------------------------- messages

  /** An emitted field decodes to an equal one. */
  lemma {:induction false} FieldRoundTrip(sch: Schema, sid: nat, i: nat, a: Cell, run: D.Run) returns (c: Cell)
    requires WfSchema(sch) && sid < |sch| && i < |sch[sid]| && Generous(run.heap)
    requires ValidCell(sch, sid, i, a) && CellAtDefault(sch, sid, i, CellOf(sch[sid], run.store, i))
    requires D.FixedDone(sch[sid], run) && run.fixed != i
    requires Release.KnownRef(sch, sch[sid][i]) && Emitted(sch, sch[sid][i], a)
    ensures EncField(sch, sch[sid][i], a.data, a.size).ok
    ensures Decoded(sch, sid, i, EncField(sch, sch[sid][i], a.data, a.size).out, run, c)
    ensures ReceivedCell(sch, sid, i, a, NormalCell(sch[sid][i], c))
    ensures sch[sid][i].htype.OneOf? ==> c.size == Num(sch[sid][i].tag)
    decreases a.data, 11
  {
    var f := sch[sid][i];
    assert WfMessage(sch, sid) && OkField(sch, sid, i);
    if f.htype.Repeated? && f.atype.Static? {
      c := ArrayRoundTrip(sch, sid, i, a, run);
    } else if f.htype.Repeated? {
      c := HeapArrayRoundTrip(sch, sid, i, a, run);
    } else {
      c := SingleRoundTrip(sch, sid, i, a, run);
    }
  }

  lemma {:induction false} SingleRoundTrip(sch: Schema, sid: nat, i: nat, a: Cell, run: D.Run) returns (c: Cell)
    requires WfSchema(sch) && sid < |sch| && i < |sch[sid]| && Generous(run.heap)
    requires ValidCell(sch, sid, i, a) && CellAtDefault(sch, sid, i, CellOf(sch[sid], run.store, i))
    requires Release.KnownRef(sch, sch[sid][i]) && Emitted(sch, sch[sid][i], a) && !sch[sid][i].htype.Repeated?
    ensures EncField(sch, sch[sid][i], a.data, a.size).ok
    ensures Decoded(sch, sid, i, EncField(sch, sch[sid][i], a.data, a.size).out, run, c)
    ensures ReceivedCell(sch, sid, i, a, NormalCell(sch[sid][i], c))
    ensures sch[sid][i].htype.OneOf? ==> c.size == Num(sch[sid][i].tag)
    decreases a.data, 10
  {
    var f := sch[sid][i];
    assert WfMessage(sch, sid) && OkField(sch, sid, i);
    hide ValidTarget, ValidItem, ReceivedItem, EncTagged, EncTarget, CellAtDefault, Decoded;
    if f.atype.Pointer? {
      assert ValidPointer(sch, sid, i, a);
      c := PointerRoundTrip(sch, sid, i, a.data, run);
    } else {
      assert ValidStatic(sch, sid, i, a);
      c := ValueRoundTrip(sch, sid, i, a.data, run);
    }
  }

  lemma ArrayStart(sch: Schema, sid: nat, i: nat, a: Cell, run: D.Run)
    requires WfSchema(sch) && sid < |sch| && i < |sch[sid]| && Generous(run.heap)
    requires ValidCell(sch, sid, i, a) && CellAtDefault(sch, sid, i, CellOf(sch[sid], run.store, i))
    requires D.FixedDone(sch[sid], run) && run.fixed != i
    requires sch[sid][i].htype.Repeated? && sch[sid][i].atype.Static?
    ensures var n := ArrayCount(sch[sid][i], a.size);
            && a.data.Arr? && 0 <= n && ValidItems(sch, sid, i, a.data.items, n)
            && (D.FixedCount(sch[sid][i]) ==> n == sch[sid][i].arraySize)
    ensures Ready(sch[sid], run, i, 0)
    ensures var data := CellOf(sch[sid], run.store, i).data;
            data.Arr? && Entered(sch, sid, i, a.data.items, 0, run, run, data.items)
  {
    var data := CellOf(sch[sid], run.store, i).data;
    assert WfMessage(sch, sid) && OkField(sch, sid, i);
    assert ValidStatic(sch, sid, i, a) && ShapedCell(sch, sid, i, CellOf(sch[sid], run.store, i));
    assert ShapedItems(sch, sid, i, data.items);
  }

  lemma {:induction false} ArrayRoundTrip(sch: Schema, sid: nat, i: nat, a: Cell, run: D.Run) returns (c: Cell)
    requires WfSchema(sch) && sid < |sch| && i < |sch[sid]| && Generous(run.heap)
    requires ValidCell(sch, sid, i, a) && CellAtDefault(sch, sid, i, CellOf(sch[sid], run.store, i))
    requires D.FixedDone(sch[sid], run) && run.fixed != i
    requires Release.KnownRef(sch, sch[sid][i]) && Emitted(sch, sch[sid][i], a)
    requires sch[sid][i].htype.Repeated? && sch[sid][i].atype.Static?
    ensures EncField(sch, sch[sid][i], a.data, a.size).ok
    ensures Decoded(sch, sid, i, EncField(sch, sch[sid][i], a.data, a.size).out, run, c)
    ensures ReceivedCell(sch, sid, i, a, NormalCell(sch[sid][i], c))
    decreases a.data, 10
  {
    hide D.Record, EncScalars;
    var f := sch[sid][i];
    assert WfMessage(sch, sid) && OkField(sch, sid, i);
    var xs, n := a.data.items, ArrayCount(f, a.size);
    var items := CellOf(sch[sid], run.store, i).data.items;
    ArrayStart(sch, sid, i, a, run);
    if Packable(f.ltype) {
      c := PackedRoundTrip(sch, sid, i, xs, n, items, run);
    } else {
      var ys := EntriesRoundTrip(sch, sid, i, xs, n, run, items);
      c := Cell(Arr(ys), Num(n));
      assert run.seen + D.Seen(sch[sid], i) == run.seen;
    }
  }

  lemma NoRecords(sch: Schema, sid: nat, run: D.Run)
    requires WfSchema(sch) && sid < |sch|
    ensures D.Records(sch, sid, [], run) == D.RunOut(true, false, [], run)
  {
  }

  /** What the bytes of field `n` do to a run that has decoded those before it. */
  lemma {:induction false} FieldAdvances(sch: Schema, sid: nat, x: Slot, n: nat, was: D.Run, now: D.Run)
    requires WfSchema(sch) && sid < |sch| && n < |sch[sid]|
    requires ValidStruct(sch, sid, x) && Midway(sch, sid, x.members, n, was, now)
    ensures Release.KnownRef(sch, sch[sid][n])
    ensures var a := CellOf(sch[sid], x.members, n);
            var e := EncField(sch, sch[sid][n], a.data, a.size);
            e.ok && ToTheEnd(D.Records(sch, sid, e.out, now)) &&
            Midway(sch, sid, x.members, n + 1, was, D.Records(sch, sid, e.out, now).run)
    decreases x, 1
  {
    hide EncField, D.Records, Settled, Emitted, ReceivedCell, CellAtDefault, ValidCell, PutCell, WfTable;
    var fs, next := sch[sid], n + 1;
    var a := CellOf(fs, x.members, n);
    assert WfMessage(sch, sid) && OkField(sch, sid, n);
    assert ValidField(sch, sid, x, n);
    assert Settled(sch, sid, x.members, now.store, n, n);
    SeenStep(fs, n, now.seen);
    if Emitted(sch, fs[n], a) {
      StillDefault(sch, sid, x, n, now.store);
      var c := FieldRoundTrip(sch, sid, n, a, now);
      var m := PutCell(fs, now.store, n, c);
      forall i | 0 <= i < |fs| ensures Settled(sch, sid, x.members, m, next, i) {
        assert Settled(sch, sid, x.members, now.store, n, i);
        SettleEmitted(sch, sid, x, n, now.store, c, i);
      }
    } else {
      OmittedField(sch, sid, x, n, now.store);
      NoRecords(sch, sid, now);
      forall i | 0 <= i < |fs| ensures Settled(sch, sid, x.members, now.store, next, i) {
        assert Settled(sch, sid, x.members, now.store, n, i);
        SettleOmitted(sch, sid, x, n, now.store, i);
      }
    }
  }

  lemma {:induction false} PrefixRoundTrip(sch: Schema, sid: nat, x: Slot, n: nat, start: D.Run)
    requires WfSchema(sch) && sid < |sch| && n <= |sch[sid]|
    requires ValidStruct(sch, sid, x) && Midway(sch, sid, x.members, 0, start, start)
    ensures EncFields(sch, sid, x, n).ok
    ensures var o := D.Records(sch, sid, EncFields(sch, sid, x, n).out, start);
            ToTheEnd(o) && Midway(sch, sid, x.members, n, start, o.run)
    decreases x, 2, n
  {
    hide D.Record, EncField;
    if n == 0 {
    } else {
      PrefixRoundTrip(sch, sid, x, n - 1, start);
      var head := EncFields(sch, sid, x, n - 1).out;
      var now := D.Records(sch, sid, head, start).run;
      FieldAdvances(sch, sid, x, n - 1, start, now);
      var a := CellOf(sch[sid], x.members, n - 1);
      assert ValidField(sch, sid, x, n - 1);
      RecordsConcat(sch, sid, head, EncField(sch, sch[sid][n - 1], a.data, a.size).out, start);
    }
  }

  /** A message decodes to an equal message, on top of any struct at its defaults. */
  lemma {:induction false} MessageRoundTrip(sch: Schema, sid: nat, x: Slot, d: Store, h: Heap)
    requires WfSchema(sch) && sid < |sch|
    requires ValidStruct(sch, sid, x) && AtDefault(sch, sid, d) && Generous(h)
    ensures EncMessage(sch, sid, x).ok
    ensures var o := D.DecodeNoInit(sch, sid, EncMessage(sch, sid, x).out, d, h);
            o.ok && o.rest == [] && Generous(o.heap) && ReceivedStruct(sch, sid, x, Sub(o.store))
    decreases x, 3
  {
    var start := D.Start(d, h);
    forall i | 0 <= i < |sch[sid]| ensures Settled(sch, sid, x.members, d, 0, i) {
      assert CellAtDefault(sch, sid, i, CellOf(sch[sid], d, i));
    }
    PrefixRoundTrip(sch, sid, x, |sch[sid]|, start);
    var o := D.Records(sch, sid, EncMessage(sch, sid, x).out, start);
    forall i | 0 <= i < |sch[sid]| ensures ReceivedField(sch, sid, x, Sub(o.run.store), i) {
      assert ValidField(sch, sid, x, i);
      OwnerInUnion(sch, sid, x, i);
      assert Settled(sch, sid, x.members, o.run.store, |sch[sid]|, i);
    }
  }

  /** The round trip of the library: for every descriptor and every valid struct, with
      memory to spare, `pb_decode` of the output of `pb_encode` into any struct of the
      type succeeds and consumes every byte. The result is equal, up to the names of
      the blocks, exactly when no explicit default of a proto3-style field hides a
      value and no string in use is a null pointer. */
  lemma EncodeDecode(sch: Schema, sid: nat, x: Slot, into: Store, h: Heap)
    requires WfSchema(sch) && sid < |sch| && Generous(h)
    requires ValidStruct(sch, sid, x) && Shaped(sch, sid, into)
    ensures EncMessage(sch, sid, x).ok
    ensures var o := D.Decode(sch, sid, EncMessage(sch, sid, x).out, into, h);
            && o.ok && o.rest == [] && ReceivedStruct(sch, sid, x, Sub(o.store))
            && (SameStruct(sch, sid, x, Sub(o.store)) <==> KeptStruct(sch, sid, x))
  {
    InitialisedAtDefault(sch, sid, into);
    MessageRoundTrip(sch, sid, x, Initialised(sch, sid, into), h);
    hide D.DecodeNoInit, ReceivedStruct, SameStruct, KeptStruct, EncFields;
    var o := D.Decode(sch, sid, EncMessage(sch, sid, x).out, into, h);
    SurvivesExactly(sch, sid, x, Sub(o.store));
  }

  /** A descriptor without pointers needs no memory: the same on any heap, which is
      left as it was. */
  lemma EncodeDecodeStatic(sch: Schema, sid: nat, x: Slot, into: Store, h: Heap)
    requires WfSchema(sch) && sid < |sch| && StaticMessage(sch, sid)
    requires ValidStruct(sch, sid, x) && Shaped(sch, sid, into)
    ensures EncMessage(sch, sid, x).ok
    ensures var o := D.Decode(sch, sid, EncMessage(sch, sid, x).out, into, h);
            && o.ok && o.rest == [] && o.heap == h && ReceivedStruct(sch, sid, x, Sub(o.store))
            && (SameStruct(sch, sid, x, Sub(o.store)) <==> KeptStruct(sch, sid, x))
  {
    hide D.Decode, EncFields, ReceivedStruct, SameStruct, KeptStruct;
    var g := h.(grant := (id, bytes) => true);
    EncodeDecode(sch, sid, x, into, g);
    DecodeStatic(sch, sid, EncMessage(sch, sid, x).out, into, h, g);
  }
}
