/** The blocks a decode loses: still allocated, with no pointer to them left. They are
    those that initialising an array entry overwrites, and those past the count of an
    array whose storage is given up by a release. */
module Losses {
  import opened Bits
  import opened Descriptor
  import opened FieldIterator
  import opened Defaults
  import opened Allocator
  import opened Release
  import D = DecodeSpec
  import opened Ownership
  import opened DefaultOwnership

  /** What a struct loses when it is initialised again. */
  function LostInit(sch: Schema, sid: nat, x: Slot): multiset<nat>
    requires WfSchema(sch) && sid < |sch|
  {
    IdsStruct(Stored, sch, sid, x) - Lasting(sch, sid, Members(x))
  }

  /** What a release of this field does not reach. */
  function OutOfReach(sch: Schema, f: Field, c: Cell): multiset<nat>
    requires WfSchema(sch) && KnownRef(sch, f)
  {
    IdsCell(Stored, sch, f, c.data, c.size) - IdsCell(Reached, sch, f, c.data, c.size)
  }

  /** What a release of this struct leaves allocated and no longer stores. */
  function LostRelease(sch: Schema, sid: nat, x: Slot, h: Heap): multiset<nat>
    requires WfSchema(sch) && sid < |sch|
  {
    IdsStruct(Stored, sch, sid, x) - IdsStruct(Reached, sch, sid, x)
    - IdsStruct(Stored, sch, sid, ReleaseStruct(sch, sid, x, h).slot)
  }

  /** One item: an array entry is initialised without being released. */
  function LostValue(sch: Schema, f: Field, s: seq<Byte>, dest: Slot, h: Heap): multiset<nat>
    requires WfSchema(sch) && KnownRef(sch, f)
    decreases |s|, 2
  {
    if !f.ltype.SubMessage? || !f.ptr.Fields? then multiset{}
    else match D.Delimited(s)
      case NoChunk => multiset{}
      case Chunk(body, _) =>
        if f.htype.Repeated? then LostInit(sch, f.ptr.id, dest) + LostDecode(sch, f.ptr.id, body, Members(dest), h)
        else LostNoInit(sch, f.ptr.id, body, Members(dest), h)
  }

  function LostStatic(sch: Schema, f: Field, s: seq<Byte>, c: Cell, h: Heap): multiset<nat>
    requires WfSchema(sch) && KnownRef(sch, f)
    decreases |s|, 3
  {
    match f.htype
    case Repeated =>
      if PointerArray(sch, f) && Number(c.size) < f.arraySize then
        LostValue(sch, f, s, ItemAt(Items(c.data), Number(c.size)), h)
      else multiset{}
    case OneOf =>
      var start := if f.ltype.SubMessage? && f.ptr.Fields? && Number(c.size) != f.tag
                   then FreshStruct(sch, f.ptr.id) else c.data;
      LostValue(sch, f, s, start, h)
    case _ => LostValue(sch, f, s, c.data, h)
  }

  /** A single item behind a pointer: the submessage already there is released. */
  function LostOne(sch: Schema, f: Field, s: seq<Byte>, c: Cell, h: Heap): multiset<nat>
    requires WfSchema(sch) && KnownRef(sch, f)
    decreases |s|, 3
  {
    var there := f.ltype.SubMessage? && !c.data.Nil?;
    var r := if there then ReleaseCell(sch, f, c.data, c.size, h) else CellHeap(c, h);
    var a := AllocateField(r.heap, r.cell.data, f.dataSize, 1);
    (if there then OutOfReach(sch, f, c) else multiset{}) +
    (if f.ltype.SubMessage? && a.ok then LostValue(sch, f, s, D.NewItem(sch, f, ItemAt(Items(a.slot), 0)), a.heap)
     else multiset{})
  }

  function LostPointer(sch: Schema, f: Field, s: seq<Byte>, c: Cell, h: Heap): multiset<nat>
    requires WfSchema(sch) && KnownRef(sch, f)
    decreases |s|, 4
  {
    if !f.htype.Repeated? then LostOne(sch, f, s, c, h)
    else
      var k := Number(c.size);
      if k == PB_SIZE_MAX || k < 0 then multiset{}
      else
        var a := AllocateField(h, c.data, f.dataSize, k + 1);
        if a.ok then LostValue(sch, f, s, D.NewItem(sch, f, ItemAt(Items(a.slot), k)), a.heap) else multiset{}
  }

  /** Another member of the union gives its storage up. */
  function LostUnion(sch: Schema, sid: nat, i: nat, c: Cell): multiset<nat>
    requires WfSchema(sch) && sid < |sch| && i < |sch[sid]|
  {
    var fs, was := sch[sid], Number(c.size);
    var j := if was > 0 then FirstMatch(fs, was, 0) else |fs|;
    if was == 0 || was == fs[i].tag || j == |fs| || UnionHead(fs, j) != UnionHead(fs, i) then multiset{}
    else
      assert WfMessage(sch, sid) && OkField(sch, sid, j);
      OutOfReach(sch, fs[j], c)
  }

  function LostField(sch: Schema, sid: nat, i: nat, s: seq<Byte>, c: Cell, h: Heap): multiset<nat>
    requires WfSchema(sch) && sid < |sch| && i < |sch[sid]|
    decreases |s|, 5
  {
    var f := sch[sid][i];
    assert WfMessage(sch, sid) && OkField(sch, sid, i);
    var u := if f.htype.OneOf? then D.ReleaseUnion(sch, sid, i, c, h) else D.UnionOut(true, c, h);
    (if f.htype.OneOf? then LostUnion(sch, sid, i, c) else multiset{}) +
    (if !u.ok then multiset{}
     else if f.atype.Static? then LostStatic(sch, f, s, u.cell, u.heap)
     else LostPointer(sch, f, s, u.cell, u.heap))
  }

  function LostKnown(sch: Schema, sid: nat, i: nat, s: seq<Byte>, run: D.Run): multiset<nat>
    requires WfSchema(sch) && sid < |sch| && i < |sch[sid]|
    decreases |s|, 6
  {
    var fs := sch[sid];
    if D.FixedCount(fs[i]) && run.fixed != i && !D.FixedDone(fs, run) then multiset{}
    else
      var run1 := (if D.FixedCount(fs[i]) then D.EnterFixed(run, i) else run).(seen := run.seen + D.Seen(fs, i));
      LostField(sch, sid, i, s, D.RunCell(fs, run1, i), run1.heap)
  }

  function LostRecord(sch: Schema, sid: nat, s: seq<Byte>, run: D.Run): multiset<nat>
    requires WfSchema(sch) && sid < |sch|
    decreases |s|, 6
  {
    match D.DecodeTag(s)
    case Tag(number, _, after) =>
      if Known(sch[sid], number) && sch[sid] != [] then LostKnown(sch, sid, FirstMatch(sch[sid], number, 0), after, run)
      else multiset{}
    case _ => multiset{}
  }

  /** The blocks lost in a run of records. */
  function LostRecords(sch: Schema, sid: nat, s: seq<Byte>, run: D.Run): multiset<nat>
    requires WfSchema(sch) && sid < |sch|
    decreases |s|, 7
  {
    if s == [] then multiset{}
    else
      var o := D.Record(sch, sid, s, run);
      LostRecord(sch, sid, s, run) + (if !o.ok || o.stopped then multiset{} else LostRecords(sch, sid, o.rest, o.run))
  }

  function LostNoInit(sch: Schema, sid: nat, s: seq<Byte>, m: Store, h: Heap): multiset<nat>
    requires WfSchema(sch) && sid < |sch|
    decreases |s|, 8
  {
    LostRecords(sch, sid, s, D.Start(m, h))
  }

  /** `pb_decode` releases the struct after a failure. */
  function LostDecode(sch: Schema, sid: nat, s: seq<Byte>, m: Store, h: Heap): multiset<nat>
    requires WfSchema(sch) && sid < |sch|
    decreases |s|, 9
  {
    var m0 := Initialised(sch, sid, m);
    var o := D.DecodeNoInit(sch, sid, s, m0, h);
    LostNoInit(sch, sid, s, m0, h) + (if o.ok then multiset{} else LostRelease(sch, sid, Sub(o.store), o.heap))
  }
}
