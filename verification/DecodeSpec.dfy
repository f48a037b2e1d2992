/** pb_decode.c as functions of the remaining input: each decoder returns whether
    it succeeded, the input it left, and what it left in memory. */
module DecodeSpec {
  import opened Bits
  import opened Varint
  import opened Descriptor
  import opened Scalars
  import opened FieldIterator
  import opened Defaults
  import opened Allocator
  import opened Release

  // ---------------------------------------------------------- tags, skipping

  datatype Tag = BadTag | EndTag(rest: seq<Byte>) | Tag(number: nat, wire: nat, rest: seq<Byte>)

  /** `pb_decode_tag` on a stream that is not at its end; a zero key ends the message. */
  function DecodeTag(s: seq<Byte>): (t: Tag)
    ensures t.Tag? ==> |t.rest| < |s|
    ensures t.EndTag? ==> |t.rest| < |s|
  {
    match Varint32(s)
    case Fail => BadTag
    case Got(key, rest) => if key == 0 then EndTag(rest) else Tag(key / 8, key % 8, rest)
  }

  datatype Skip = NoSkip | Skipped(rest: seq<Byte>)

  /** A length and that many bytes: `pb_make_string_substream`, `pb_skip_string`. */
  datatype Chunk = NoChunk | Chunk(body: seq<Byte>, rest: seq<Byte>)

  function Delimited(s: seq<Byte>): (c: Chunk)
    ensures c.Chunk? ==> |c.rest| < |s| && |c.body| < |s|
  {
    match Varint32(s)
    case Fail => NoChunk
    case Got(n, r) => if n <= |r| then Chunk(r[..n], r[n..]) else NoChunk
  }

  /** `pb_skip_field`. */
  function SkipField(wire: nat, s: seq<Byte>): (k: Skip)
    ensures k.Skipped? ==> |k.rest| < |s|
  {
    if wire == WT_VARINT then
      (if VarLen(s) == 0 then NoSkip else Skipped(s[VarLen(s)..]))
    else if wire == WT_64BIT then
      (if |s| < 8 then NoSkip else Skipped(s[8..]))
    else if wire == WT_STRING then
      (match Delimited(s) case NoChunk => NoSkip case Chunk(_, rest) => Skipped(rest))
    else if wire == WT_32BIT then
      (if |s| < 4 then NoSkip else Skipped(s[4..]))
    else NoSkip
  }

  // -------------------------------------------------------------- one value

  datatype ValueOut = ValueOut(ok: bool, rest: seq<Byte>, slot: Slot, heap: Heap)

  /** The `n` bytes of a string or bytes array, which need `capacity` bytes. A pointer
      field gets a block of that size, a static one must have room; its contents
      are indeterminate when the bytes do not all arrive. */
  function FillBuffer(f: Field, r: seq<Byte>, n: nat, capacity: nat, dest: Slot, h: Heap): (v: ValueOut)
    ensures v.ok ==> |v.rest| <= |r|
  {
    if f.atype.Pointer? then
      if |r| < n then ValueOut(false, r, dest, h)
      else
        var a := AllocateField(h, dest, capacity, 1);
        if !a.ok then ValueOut(false, r, dest, a.heap)
        else ValueOut(true, r[n..], Block(a.slot.id, [Buf(r[..n])]), a.heap)
    else if capacity > f.dataSize then ValueOut(false, r, dest, h)
    else if |r| < n then ValueOut(false, r, Undef, h)
    else ValueOut(true, r[n..], Buf(r[..n]), h)
  }

  /** `pb_dec_bytes` and `pb_dec_string`. */
  function DecBuffer(f: Field, s: seq<Byte>, dest: Slot, h: Heap): (v: ValueOut)
    ensures v.ok ==> |v.rest| < |s|
  {
    match Varint32(s)
    case Fail => ValueOut(false, s, dest, h)
    case Got(n, r) =>
      var capacity := if f.ltype.Bytes? then BYTES_HEADER + n else U32(n + 1);
      if (f.ltype.Bytes? && n > PB_SIZE_MAX) || n > capacity then ValueOut(false, s, dest, h)
      else FillBuffer(f, r, n, capacity, dest, h)
  }

  /** `pb_dec_fixed_length_bytes`: an empty value stands for all zeros. */
  function DecFixedBytes(f: Field, s: seq<Byte>, dest: Slot, h: Heap): (v: ValueOut)
    ensures v.ok ==> |v.rest| < |s|
  {
    match Varint32(s)
    case Fail => ValueOut(false, s, dest, h)
    case Got(n, r) =>
      if n > PB_SIZE_MAX then ValueOut(false, s, dest, h)
      else if n == 0 then ValueOut(true, r, Buf(Zeros(f.dataSize)), h)
      else if n != f.dataSize || |r| < n then ValueOut(false, s, dest, h)
      else ValueOut(true, r[n..], Buf(r[..n]), h)
  }

  /** The entry of PB_DECODERS for the field, applied to the item in `dest`. */
  function DecValue(sch: Schema, f: Field, s: seq<Byte>, dest: Slot, h: Heap): (v: ValueOut)
    requires WfSchema(sch) && KnownRef(sch, f)
    ensures v.ok ==> |v.rest| < |s|
    decreases |s|, 2
  {
    if Packable(f.ltype) then
      var i := DecScalar(f, s, dest);
      ValueOut(i.ok, i.rest, i.slot, h)
    else if f.ltype.Bytes? || f.ltype.String? then DecBuffer(f, s, dest, h)
    else if f.ltype.FixedLengthBytes? then DecFixedBytes(f, s, dest, h)
    else if f.ltype.SubMessage? then DecSub(sch, f, s, dest, h)
    else ValueOut(false, s, dest, h)
  }

  /** `pb_dec_submessage`: array entries are initialised, other submessages are
      merged into what is already there. */
  function DecSub(sch: Schema, f: Field, s: seq<Byte>, dest: Slot, h: Heap): (v: ValueOut)
    requires WfSchema(sch) && KnownRef(sch, f)
    ensures v.ok ==> |v.rest| < |s|
    decreases |s|, 1
  {
    match Delimited(s)
    case NoChunk => ValueOut(false, s, dest, h)
    case Chunk(body, rest) =>
      if !f.ptr.Fields? then ValueOut(false, s, dest, h)
      else
        var m := if f.htype.Repeated? then Decode(sch, f.ptr.id, body, Members(dest), h)
                 else DecodeNoInit(sch, f.ptr.id, body, Members(dest), h);
        ValueOut(m.ok, if m.ok then rest else s, Sub(m.store), m.heap)
  }

  // -------------------------------------------------------------- one field

  datatype StepOut = StepOut(ok: bool, rest: seq<Byte>, cell: Cell, heap: Heap)

  datatype ArrayOut = ArrayOut(ok: bool, rest: seq<Byte>, items: seq<Slot>, count: int)

  /** The loop over a packed block into a static array. */
  function PackedItems(f: Field, s: seq<Byte>, items: seq<Slot>, count: int): ArrayOut
    decreases |s|
  {
    if s == [] || count >= f.arraySize then ArrayOut(true, s, items, count)
    else
      var d := DecScalar(f, s, ItemAt(items, count));
      if !d.ok then ArrayOut(false, s, SetItem(items, count, d.slot), count)
      else PackedItems(f, d.rest, SetItem(items, count, d.slot), count + 1)
  }

  function StaticPacked(f: Field, s: seq<Byte>, c: Cell, h: Heap): (o: StepOut)
    ensures o.ok ==> |o.rest| < |s|
  {
    match Delimited(s)
    case NoChunk => StepOut(false, s, c, h)
    case Chunk(body, rest) =>
      var p := PackedItems(f, body, Items(c.data), Number(c.size));
      var c1 := Cell(Arr(p.items), Num(p.count));
      var ok := p.ok && p.rest == [];
      StepOut(ok, if ok then rest else s, c1, h)
  }

  function StaticSingle(sch: Schema, f: Field, s: seq<Byte>, c: Cell, h: Heap): (o: StepOut)
    requires WfSchema(sch) && KnownRef(sch, f)
    ensures o.ok ==> |o.rest| < |s|
    decreases |s|, 3
  {
    var k := Number(c.size);
    if k >= f.arraySize then StepOut(false, s, Cell(c.data, Num(k + 1)), h)
    else
      var v := DecValue(sch, f, s, ItemAt(Items(c.data), k), h);
      StepOut(v.ok, v.rest, Cell(Arr(SetItem(Items(c.data), k, v.slot)), Num(k + 1)), v.heap)
  }

  /** `decode_static_field`. */
  function StaticStep(sch: Schema, f: Field, wire: nat, s: seq<Byte>, c: Cell, h: Heap): (o: StepOut)
    requires WfSchema(sch) && KnownRef(sch, f)
    ensures o.ok ==> |o.rest| < |s|
    decreases |s|, 4
  {
    match f.htype
    case Required =>
      var v := DecValue(sch, f, s, c.data, h);
      StepOut(v.ok, v.rest, Cell(v.slot, c.size), v.heap)
    case Optional =>
      var v := DecValue(sch, f, s, c.data, h);
      StepOut(v.ok, v.rest, Cell(v.slot, if f.sizeOffset != 0 then Num(1) else c.size), v.heap)
    case Repeated =>
      if wire == WT_STRING && Packable(f.ltype) then StaticPacked(f, s, c, h) else StaticSingle(sch, f, s, c, h)
    case OneOf =>
      var start := if f.ltype.SubMessage? && f.ptr.Fields? && Number(c.size) != f.tag
                   then FreshStruct(sch, f.ptr.id) else c.data;
      var v := DecValue(sch, f, s, start, h);
      StepOut(v.ok, v.rest, Cell(v.slot, Num(f.tag)), v.heap)
  }

  /** `initialize_pointer_field` on a new item. */
  function NewItem(sch: Schema, f: Field, was: Slot): Slot
    requires WfSchema(sch) && KnownRef(sch, f)
  {
    if f.ltype.String? || f.ltype.Bytes? then Nil
    else if f.ltype.SubMessage? && f.ptr.Fields? then FreshStruct(sch, f.ptr.id)
    else was
  }

  datatype GrowOut = GrowOut(ok: bool, rest: seq<Byte>, data: Slot, count: nat, heap: Heap)

  /** Room for the rest of a packed block, guessed from the bytes left. */
  function Grown(left: nat, dataSize: nat, room: nat): nat
    requires left > 0 && dataSize > 0
  {
    var remain := (left - 1) / dataSize + 1;
    if remain < PB_SIZE_MAX - room then room + remain else room + 1
  }

  function RoomFor(left: nat, dataSize: nat, count: nat, room: nat): nat
    requires left > 0 && dataSize > 0
  {
    if count + 1 > room then Grown(left, dataSize, room) else room
  }

  /** Making room for one more element. */
  function MakeRoom(f: Field, left: nat, data: Slot, count: nat, room: nat, h: Heap): AllocOut
    requires left > 0 && f.dataSize > 0
  {
    if count + 1 > room then AllocateField(h, data, f.dataSize, RoomFor(left, f.dataSize, count, room))
    else AllocOut(true, data, h)
  }

  /** The loop over a packed block into a heap array. */
  function GrowItems(f: Field, s: seq<Byte>, data: Slot, count: nat, room: nat, h: Heap): GrowOut
    requires f.dataSize > 0
    decreases |s|
  {
    if s == [] then GrowOut(true, s, data, count, h)
    else if count == PB_SIZE_MAX then GrowOut(false, s, data, count, h)
    else
      var a := MakeRoom(f, |s|, data, count, room, h);
      if !a.ok then GrowOut(false, s, data, count, a.heap)
      else
        var d := DecScalar(f, s, ItemAt(Items(a.slot), count));
        var data1 := WithItem(a.slot, count, d.slot);
        if !d.ok then GrowOut(false, s, data1, count, a.heap)
        else GrowItems(f, d.rest, data1, count + 1, RoomFor(|s|, f.dataSize, count, room), a.heap)
  }

  function WithItem(data: Slot, k: int, x: Slot): Slot {
    if data.Block? then Block(data.id, SetItem(data.cells, k, x)) else data
  }

  function PointerPacked(f: Field, s: seq<Byte>, c: Cell, h: Heap): (o: StepOut)
    requires f.dataSize > 0
    ensures o.ok ==> |o.rest| < |s|
  {
    match Delimited(s)
    case NoChunk => StepOut(false, s, c, h)
    case Chunk(body, rest) =>
      var count := if Number(c.size) < 0 then 0 else Number(c.size);
      var g := GrowItems(f, body, c.data, count, count, h);
      StepOut(g.ok, if g.ok then rest else s, Cell(g.data, Num(g.count)), g.heap)
  }

  function PointerSingle(sch: Schema, f: Field, s: seq<Byte>, c: Cell, h: Heap): (o: StepOut)
    requires WfSchema(sch) && KnownRef(sch, f)
    ensures o.ok ==> |o.rest| < |s|
    decreases |s|, 3
  {
    var k := Number(c.size);
    if k == PB_SIZE_MAX || k < 0 then StepOut(false, s, c, h)
    else
      var a := AllocateField(h, c.data, f.dataSize, k + 1);
      if !a.ok then StepOut(false, s, c, a.heap)
      else
        var v := DecValue(sch, f, s, NewItem(sch, f, ItemAt(Items(a.slot), k)), a.heap);
        StepOut(v.ok, v.rest, Cell(WithItem(a.slot, k, v.slot), Num(k + 1)), v.heap)
  }

  /** A required, optional or oneof pointer field. A submessage already there is
      released first. */
  function PointerOne(sch: Schema, f: Field, s: seq<Byte>, c: Cell, h: Heap): (o: StepOut)
    requires WfSchema(sch) && KnownRef(sch, f)
    ensures o.ok ==> |o.rest| < |s|
    decreases |s|, 3
  {
    var r := if f.ltype.SubMessage? && !c.data.Nil? then ReleaseCell(sch, f, c.data, c.size, h) else CellHeap(c, h);
    var size := if f.htype.OneOf? then Num(f.tag) else c.size;
    if f.ltype.String? || f.ltype.Bytes? then
      var v := DecValue(sch, f, s, r.cell.data, r.heap);
      StepOut(v.ok, v.rest, Cell(v.slot, size), v.heap)
    else
      var a := AllocateField(r.heap, r.cell.data, f.dataSize, 1);
      if !a.ok then StepOut(false, s, Cell(r.cell.data, size), a.heap)
      else
        var v := DecValue(sch, f, s, NewItem(sch, f, ItemAt(Items(a.slot), 0)), a.heap);
        StepOut(v.ok, v.rest, Cell(WithItem(a.slot, 0, v.slot), size), v.heap)
  }

  /** `decode_pointer_field`. */
  function PointerStep(sch: Schema, f: Field, wire: nat, s: seq<Byte>, c: Cell, h: Heap): (o: StepOut)
    requires WfSchema(sch) && KnownRef(sch, f) && f.dataSize > 0
    ensures o.ok ==> |o.rest| < |s|
    decreases |s|, 4
  {
    if !f.htype.Repeated? then PointerOne(sch, f, s, c, h)
    else if wire == WT_STRING && Packable(f.ltype) then PointerPacked(f, s, c, h)
    else PointerSingle(sch, f, s, c, h)
  }

  datatype UnionOut = UnionOut(ok: bool, cell: Cell, heap: Heap)

  /** `pb_release_union_field`: makes room for member `i`. A which_ value that
      names no member of this union is taken for an invalid one. */
  function ReleaseUnion(sch: Schema, sid: nat, i: nat, c: Cell, h: Heap): UnionOut
    requires WfSchema(sch) && sid < |sch| && i < |sch[sid]|
  {
    var fs := sch[sid];
    var was := Number(c.size);
    if was == 0 || was == fs[i].tag then UnionOut(true, c, h)
    else
      var j := if was > 0 then FirstMatch(fs, was, 0) else |fs|;
      if j == |fs| || UnionHead(fs, j) != UnionHead(fs, i) then UnionOut(false, c, h)
      else
        assert WfMessage(sch, sid) && OkField(sch, sid, j);
        var r := ReleaseCell(sch, fs[j], c.data, c.size, h);
        UnionOut(true, if fs[i].atype.Pointer? then r.cell.(data := Nil) else r.cell, r.heap)
  }

  /** `decode_field` on field `i` of a message, given the cell it points at. */
  function FieldStep(sch: Schema, sid: nat, i: nat, wire: nat, s: seq<Byte>, c: Cell, h: Heap): (o: StepOut)
    requires WfSchema(sch) && sid < |sch| && i < |sch[sid]|
    ensures o.ok ==> |o.rest| < |s|
    decreases |s|, 5
  {
    var f := sch[sid][i];
    assert WfMessage(sch, sid) && OkField(sch, sid, i);
    var u := if f.htype.OneOf? then ReleaseUnion(sch, sid, i, c, h) else UnionOut(true, c, h);
    if !u.ok then StepOut(false, s, u.cell, u.heap)
    else if f.atype.Static? then StaticStep(sch, f, wire, s, u.cell, u.heap)
    else if f.atype.Pointer? then PointerStep(sch, f, wire, s, u.cell, u.heap)
    else StepOut(false, s, u.cell, u.heap)
  }

  // --------------------------------------------------------------- messages

  /** The locals of `pb_decode_noinit`: the struct, the account of the heap, the
      last fixed-count field and its counter, and the required fields seen. */
  datatype Run = Run(store: Store, heap: Heap, fixed: int, fixedSize: int, seen: set<nat>)

  /** `stopped`: a zero key ended the message. */
  datatype RunOut = RunOut(ok: bool, stopped: bool, rest: seq<Byte>, run: Run)

  /** A static repeated field without a counter in the struct. */
  predicate FixedCount(f: Field) {
    f.htype.Repeated? && f.sizeOffset == 0
  }

  function FixedDone(fs: seq<Field>, run: Run): bool {
    0 <= run.fixed < |fs| ==> run.fixedSize == fs[run.fixed].arraySize
  }

  /** The counter bookkeeping before a fixed-count field is decoded. */
  function EnterFixed(run: Run, i: nat): Run {
    if run.fixed == i then run else run.(fixed := i, fixedSize := 0)
  }

  function RunCell(fs: seq<Field>, run: Run, i: nat): Cell {
    if FixedCount(FieldAt(fs, i)) then CellOf(fs, run.store, i).(size := Num(run.fixedSize))
    else CellOf(fs, run.store, i)
  }

  function WriteBack(fs: seq<Field>, run: Run, i: nat, c: Cell, h: Heap): Run {
    var run1 := run.(store := PutCell(fs, run.store, i, c), heap := h);
    if FixedCount(FieldAt(fs, i)) then run1.(fixedSize := Number(c.size)) else run1
  }

  /** The bit a required field sets in `fields_seen`. */
  function Seen(fs: seq<Field>, i: nat): set<nat>
    requires i < |fs|
  {
    if fs[i].htype.Required? && RequiredBefore(fs, i) < MAX_REQUIRED_FIELDS then {RequiredBefore(fs, i)} else {}
  }

  /** One record of a known field, after its key. */
  function KnownRecord(sch: Schema, sid: nat, i: nat, wire: nat, s: seq<Byte>, run: Run): (o: RunOut)
    requires WfSchema(sch) && sid < |sch| && i < |sch[sid]|
    ensures !o.stopped && (o.ok ==> |o.rest| < |s|)
    decreases |s|, 6
  {
    var fs := sch[sid];
    var switching := FixedCount(fs[i]) && run.fixed != i;
    if switching && !FixedDone(fs, run) then RunOut(false, false, s, run)
    else
      var run1 := (if FixedCount(fs[i]) then EnterFixed(run, i) else run).(seen := run.seen + Seen(fs, i));
      var o := FieldStep(sch, sid, i, wire, s, RunCell(fs, run1, i), run1.heap);
      RunOut(o.ok, false, o.rest, WriteBack(fs, run1, i, o.cell, o.heap))
  }

  /** The terminator of an empty table taken for a required bool at offset 0. */
  function TerminatorRecord(s: seq<Byte>, run: Run): (o: RunOut)
    ensures !o.stopped && (o.ok ==> |o.rest| < |s|)
  {
    var d := DecScalar(LAST_FIELD, s, Look(run.store, 0));
    RunOut(d.ok, false, d.rest, run.(store := run.store[0 := d.slot], seen := run.seen + {0}))
  }

  /** One pass of the loop of `pb_decode_noinit`. */
  function Record(sch: Schema, sid: nat, s: seq<Byte>, run: Run): (o: RunOut)
    requires WfSchema(sch) && sid < |sch|
    ensures o.ok ==> |o.rest| < |s|
    decreases |s|, 6
  {
    match DecodeTag(s)
    case BadTag => RunOut(false, false, s, run)
    case EndTag(rest) => RunOut(true, true, rest, run)
    case Tag(number, wire, rest) =>
      if !Known(sch[sid], number) then
        (match SkipField(wire, rest)
         case NoSkip => RunOut(false, false, s, run)
         case Skipped(r) => RunOut(true, false, r, run))
      else if sch[sid] == [] then TerminatorRecord(rest, run)
      else KnownRecord(sch, sid, FirstMatch(sch[sid], number, 0), wire, rest, run)
  }

  /** The loop of `pb_decode_noinit`. */
  function Records(sch: Schema, sid: nat, s: seq<Byte>, run: Run): (o: RunOut)
    requires WfSchema(sch) && sid < |sch|
    decreases |s|, 7
  {
    if s == [] then RunOut(true, false, s, run)
    else
      var o := Record(sch, sid, s, run);
      if !o.ok || o.stopped then o else Records(sch, sid, o.rest, o.run)
  }

  datatype MessageOut = MessageOut(ok: bool, rest: seq<Byte>, store: Store, heap: Heap)

  /** The fields the bitmap can track are all there. */
  predicate RequiredSeen(fs: seq<Field>, seen: set<nat>) {
    forall k :: 0 <= k < RequiredBefore(fs, |fs|) && k < MAX_REQUIRED_FIELDS ==> k in seen
  }

  function Start(m: Store, h: Heap): Run {
    Run(m, h, -1, 0, {})
  }

  /** `pb_decode_noinit`. */
  function DecodeNoInit(sch: Schema, sid: nat, s: seq<Byte>, m: Store, h: Heap): MessageOut
    requires WfSchema(sch) && sid < |sch|
    decreases |s|, 8
  {
    var o := Records(sch, sid, s, Start(m, h));
    MessageOut(o.ok && FixedDone(sch[sid], o.run) && RequiredSeen(sch[sid], o.run.seen),
               o.rest, o.run.store, o.run.heap)
  }

  /** `pb_decode`. */
  function Decode(sch: Schema, sid: nat, s: seq<Byte>, m: Store, h: Heap): MessageOut
    requires WfSchema(sch) && sid < |sch|
    decreases |s|, 9
  {
    var o := DecodeNoInit(sch, sid, s, Initialised(sch, sid, m), h);
    if o.ok then o
    else
      var r := ReleaseStruct(sch, sid, Sub(o.store), o.heap);
      o.(store := Members(r.slot), heap := r.heap)
  }
}
