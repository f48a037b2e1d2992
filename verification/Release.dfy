/** pb_release and pb_release_single_field. */
module Release {
  import opened Descriptor
  import opened Allocator

  datatype SlotHeap = SlotHeap(slot: Slot, heap: Heap)
  datatype ItemsHeap = ItemsHeap(items: seq<Slot>, heap: Heap)
  datatype CellHeap = CellHeap(cell: Cell, heap: Heap)
  datatype StoreHeap = StoreHeap(store: Store, heap: Heap)

  /** Frees the first `n` pointers of an array and nulls them. */
  function FreeItems(items: seq<Slot>, n: int, h: Heap): ItemsHeap {
    if n <= 0 || items == [] then ItemsHeap(items, h)
    else
      var rest := FreeItems(items[1..], n - 1, Free(h, items[0]));
      ItemsHeap([Nil] + rest.items, rest.heap)
  }

  /** A union member that is not the current one is left alone. */
  predicate Inactive(f: Field, size: Slot) {
    f.htype.OneOf? && Number(size) != f.tag
  }

  /** How many submessages a field holds. */
  function SubCount(f: Field, size: Slot): int {
    if !f.htype.Repeated? then 1
    else if f.atype.Static? then
      (if f.sizeOffset == 0 then f.arraySize else if Number(size) > f.arraySize then f.arraySize else Number(size))
    else Number(size)
  }

  predicate KnownRef(sch: Schema, f: Field) {
    f.ptr.Fields? ==> f.ptr.id < |sch|
  }

  /** `pb_release` of the first `n` structs of an array. */
  function ReleaseItems(sch: Schema, id: nat, items: seq<Slot>, n: int, h: Heap): ItemsHeap
    requires WfSchema(sch) && id < |sch|
    decreases items
  {
    if n <= 0 || items == [] then ItemsHeap(items, h)
    else
      var first := ReleaseStruct(sch, id, items[0], h);
      var rest := ReleaseItems(sch, id, items[1..], n - 1, first.heap);
      ItemsHeap([first.slot] + rest.items, rest.heap)
  }

  /** The submessages of a field, wherever they are stored. */
  function ReleaseSubs(sch: Schema, f: Field, data: Slot, size: Slot, h: Heap): SlotHeap
    requires WfSchema(sch) && KnownRef(sch, f)
    decreases data, 2
  {
    if !f.ptr.Fields? then SlotHeap(data, h)
    else match data
      case Sub(_) => ReleaseStruct(sch, f.ptr.id, data, h)
      case Arr(items) =>
        var r := ReleaseItems(sch, f.ptr.id, items, SubCount(f, size), h);
        SlotHeap(Arr(r.items), r.heap)
      case Block(b, cells) =>
        var r := ReleaseItems(sch, f.ptr.id, cells, SubCount(f, size), h);
        SlotHeap(Block(b, r.items), r.heap)
      case _ => SlotHeap(data, h)
  }

  function FreeEntries(f: Field, data: Slot, size: Slot, h: Heap): SlotHeap {
    if f.htype.Repeated? && (f.ltype.String? || f.ltype.Bytes?) && data.Block? then
      var r := FreeItems(data.cells, Number(size), h);
      SlotHeap(Block(data.id, r.items), r.heap)
    else SlotHeap(data, h)
  }

  /** `pb_release_single_field` on the cell of field `f`. */
  function ReleaseCell(sch: Schema, f: Field, data: Slot, size: Slot, h: Heap): CellHeap
    requires WfSchema(sch) && KnownRef(sch, f)
    decreases data, 3
  {
    if Inactive(f, size) then CellHeap(Cell(data, size), h)
    else
      var subs := if f.ltype.SubMessage? then ReleaseSubs(sch, f, data, size, h) else SlotHeap(data, h);
      if !f.atype.Pointer? then CellHeap(Cell(subs.slot, size), subs.heap)
      else
        var entries := FreeEntries(f, subs.slot, size, subs.heap);
        CellHeap(Cell(Nil, if f.htype.Repeated? then Num(0) else size), Free(entries.heap, entries.slot))
  }

  /** `pb_release` after its first `n` fields. A union is released by its current
      member alone, so what each field reads is still what `src` holds. */
  function ReleaseFields(sch: Schema, sid: nat, src: Slot, h: Heap, n: nat): StoreHeap
    requires WfSchema(sch) && sid < |sch| && n <= |sch[sid]|
    decreases src, 0, n
  {
    if n == 0 then StoreHeap(Members(src), h)
    else
      var fs := sch[sid];
      var before := ReleaseFields(sch, sid, src, h, n - 1);
      var c := CellOf(fs, Members(src), n - 1);
      assert WfMessage(sch, sid) && OkField(sch, sid, n - 1);
      if !src.Sub? || DataAt(fs, n - 1) !in src.members || Inactive(fs[n - 1], c.size) then before
      else
        var r := ReleaseCell(sch, fs[n - 1], src.members[DataAt(fs, n - 1)], c.size, before.heap);
        StoreHeap(PutCell(fs, before.store, n - 1, r.cell), r.heap)
  }

  /** `pb_release`. */
  function ReleaseStruct(sch: Schema, sid: nat, src: Slot, h: Heap): SlotHeap
    requires WfSchema(sch) && sid < |sch|
    decreases src, 1
  {
    var r := ReleaseFields(sch, sid, src, h, |sch[sid]|);
    SlotHeap(Sub(r.store), r.heap)
  }
}
