/** The heap as an object, and pb_release step by step: an iterator walks the struct
    and each field is released in place. */
module Releaser {
  import opened Descriptor
  import opened FieldIterator
  import A = Allocator
  import opened Release
  import UnionOwnership

  /** pb_realloc and pb_free. */
  class Memory {
    var heap: A.Heap

    constructor (h: A.Heap)
      ensures heap == h
    {
      heap := h;
    }

    method Realloc(was: Slot, n: nat, bytes: nat) returns (ok: bool, slot: Slot)
      modifies this
      ensures A.AllocOut(ok, slot, heap) == A.Realloc(old(heap), was, n, bytes)
    {
      var a := A.Realloc(heap, was, n, bytes);
      ok, slot, heap := a.ok, a.slot, a.heap;
    }

    method Free(was: Slot)
      modifies this
      ensures heap == A.Free(old(heap), was)
    {
      heap := A.Free(heap, was);
    }

    /** `allocate_field`: the multiplication is checked, by a division only when an
        operand uses the upper half of a size_t. */
    method AllocateField(was: Slot, dataSize: nat, arraySize: nat) returns (ok: bool, slot: Slot)
      modifies this
      ensures A.AllocOut(ok, slot, heap) == A.AllocateField(old(heap), was, dataSize, arraySize)
      ensures ok <==> dataSize > 0 && arraySize > 0 && dataSize * arraySize <= 0xFFFF_FFFF_FFFF_FFFF &&
                      old(heap).grant(old(heap).next, dataSize * arraySize)
      ensures ok ==> slot.Block? && heap.bytes == old(heap).bytes[slot.id := dataSize * arraySize]
    {
      A.AllocateExactly(heap, was, dataSize, arraySize);
      if dataSize == 0 || arraySize == 0 {
        return false, was;
      }
      A.RejectsExactlyOverflow(dataSize, arraySize, 0x1_0000_0000);
      var checkLimit := 0x1_0000_0000;
      if dataSize >= checkLimit || arraySize >= checkLimit {
        if SIZE_MAX / arraySize < dataSize {
          return false, was;
        }
      }
      ok, slot := Realloc(was, arraySize, arraySize * dataSize);
    }
  }

  // ------------------------------------------------------------------ arrays

  lemma FreeTurn(items: seq<Slot>, i: nat, count: int, h: A.Heap)
    requires i < count && i < |items|
    ensures var rest := FreeItems(items[i + 1..], count - (i + 1), A.Free(h, items[i]));
            FreeItems(items[i..], count - i, h) == ItemsHeap([Nil] + rest.items, rest.heap)
  {
    assert items[i..][1..] == items[i + 1..];
  }

  lemma FreeEnd(items: seq<Slot>, i: nat, count: int, h: A.Heap)
    requires i <= |items| && (i >= count || i == |items|)
    ensures FreeItems(items[i..], count - i, h) == ItemsHeap(items[i..], h)
  {
  }

  lemma ReleaseTurn(sch: Schema, id: nat, items: seq<Slot>, i: nat, count: int, h: A.Heap)
    requires WfSchema(sch) && id < |sch| && i < count && i < |items|
    ensures var first := ReleaseStruct(sch, id, items[i], h);
            var rest := ReleaseItems(sch, id, items[i + 1..], count - (i + 1), first.heap);
            ReleaseItems(sch, id, items[i..], count - i, h) == ItemsHeap([first.slot] + rest.items, rest.heap)
  {
    assert items[i..][1..] == items[i + 1..];
  }

  lemma ReleaseEnd(sch: Schema, id: nat, items: seq<Slot>, i: nat, count: int, h: A.Heap)
    requires WfSchema(sch) && id < |sch| && i <= |items| && (i >= count || i == |items|)
    ensures ReleaseItems(sch, id, items[i..], count - i, h) == ItemsHeap(items[i..], h)
  {
  }

  /** The loop that frees the entries of an array of strings. */
  method FreeEntries(memory: Memory, items: seq<Slot>, count: int) returns (r: seq<Slot>)
    modifies memory
    ensures ItemsHeap(r, memory.heap) == FreeItems(items, count, old(memory.heap))
  {
    hide FreeItems;
    r := items;
    var i := 0;
    assert items[..0] == [] && items[0..] == items;
    while i < count && i < |items|
      invariant 0 <= i <= |items| && |r| == |items| && r[i..] == items[i..]
      invariant var rest := FreeItems(items[i..], count - i, memory.heap);
                FreeItems(items, count, old(memory.heap)) == ItemsHeap(r[..i] + rest.items, rest.heap)
    {
      FreeTurn(items, i, count, memory.heap);
      memory.Free(r[i]);
      r := r[i := Nil];
      i := i + 1;
    }
    FreeEnd(items, i, count, memory.heap);
  }

  /** `while (count--) pb_release(...)`. */
  method ReleaseEach(memory: Memory, sch: Schema, id: nat, items: seq<Slot>, count: int) returns (r: seq<Slot>)
    requires WfSchema(sch) && id < |sch|
    modifies memory
    ensures ItemsHeap(r, memory.heap) == ReleaseItems(sch, id, items, count, old(memory.heap))
    decreases items, 0
  {
    hide ReleaseItems, ReleaseStruct;
    r := items;
    var i := 0;
    assert items[..0] == [] && items[0..] == items;
    while i < count && i < |items|
      invariant 0 <= i <= |items| && |r| == |items| && r[i..] == items[i..]
      invariant var rest := ReleaseItems(sch, id, items[i..], count - i, memory.heap);
                ReleaseItems(sch, id, items, count, old(memory.heap)) == ItemsHeap(r[..i] + rest.items, rest.heap)
    {
      ReleaseTurn(sch, id, items, i, count, memory.heap);
      var item := ReleaseMessage(memory, sch, id, items[i]);
      r := r[i := item];
      i := i + 1;
    }
    ReleaseEnd(sch, id, items, i, count, memory.heap);
  }

  // ------------------------------------------------------------------ fields

  /** The submessages of a field: one struct, or as many as the array holds. */
  method ReleaseSubmessages(memory: Memory, sch: Schema, f: Field, data: Slot, size: Slot) returns (d: Slot)
    requires WfSchema(sch) && KnownRef(sch, f)
    modifies memory
    ensures SlotHeap(d, memory.heap) == ReleaseSubs(sch, f, data, size, old(memory.heap))
    decreases data, 2
  {
    d := data;
    if !f.ptr.Fields? {
      return;
    }
    var count := 1;
    if f.htype.Repeated? {
      if f.atype.Static? && f.sizeOffset == 0 {
        count := f.arraySize;
      } else {
        count := Number(size);
      }
      if f.atype.Static? && count > f.arraySize {
        count := f.arraySize;
      }
    }
    match data {
      case Sub(_) =>
        d := ReleaseMessage(memory, sch, f.ptr.id, data);
      case Arr(items) =>
        var r := ReleaseEach(memory, sch, f.ptr.id, items, count);
        d := Arr(r);
      case Block(b, cells) =>
        var r := ReleaseEach(memory, sch, f.ptr.id, cells, count);
        d := Block(b, r);
      case _ =>
    }
  }

  /** `pb_release_single_field`. */
  method ReleaseSingleField(memory: Memory, sch: Schema, f: Field, data: Slot, size: Slot) returns (c: Cell)
    requires WfSchema(sch) && KnownRef(sch, f)
    modifies memory
    ensures CellHeap(c, memory.heap) == ReleaseCell(sch, f, data, size, old(memory.heap))
    decreases data, 3
  {
    c := Cell(data, size);
    if f.htype.OneOf? && Number(size) != f.tag {
      return;
    }
    if f.ltype.SubMessage? {
      var d := ReleaseSubmessages(memory, sch, f, data, size);
      c := c.(data := d);
    }
    if f.atype.Pointer? {
      if f.htype.Repeated? && (f.ltype.String? || f.ltype.Bytes?) && c.data.Block? {
        var r := FreeEntries(memory, c.data.cells, Number(size));
        c := c.(data := Block(c.data.id, r));
      }
      if f.htype.Repeated? {
        c := c.(size := Num(0));
      }
      memory.Free(c.data);
      c := c.(data := Nil);
    }
  }

  // ----------------------------------------------------------------- messages

  /** Field `k` has not been reached: its cell is the original one, or its union
      belongs to another member. */
  predicate Waiting(sch: Schema, sid: nat, src: Slot, m: Store, k: nat)
    requires WfSchema(sch) && sid < |sch| && k < |sch[sid]|
  {
    var was, now := CellOf(sch[sid], Members(src), k), CellOf(sch[sid], m, k);
    && (DataAt(sch[sid], k) in m <==> src.Sub? && DataAt(sch[sid], k) in src.members)
    && (now == was || (Inactive(sch[sid][k], was.size) && Inactive(sch[sid][k], now.size)))
  }

  /** Releasing one field does not disturb those still waiting. */
  lemma StillWaiting(sch: Schema, sid: nat, src: Slot, m: Store, j: nat, c: Cell, k: nat)
    requires WfSchema(sch) && sid < |sch| && j < |sch[sid]| && k < |sch[sid]| && k != j
    requires Waiting(sch, sid, src, m, j) && Waiting(sch, sid, src, m, k) && DataAt(sch[sid], j) in m
    requires !Inactive(sch[sid][j], CellOf(sch[sid], m, j).size)
    requires sch[sid][j].htype.OneOf? ==> c.size == CellOf(sch[sid], m, j).size
    ensures Waiting(sch, sid, src, PutCell(sch[sid], m, j, c), k)
  {
    var fs := sch[sid];
    assert WfMessage(sch, sid) && OkField(sch, sid, j) && OkField(sch, sid, k);
    if UnionHead(fs, k) == UnionHead(fs, j) {
      OneOfHead(fs, k, j);
      SameUnionData(fs, k, j);
      PutThenGet(sch, sid, m, j, c);
      UnionCell(sch, sid, PutCell(fs, m, j, c), k, j);
      UnionCell(sch, sid, Members(src), k, j);
      assert TagsDiffer(fs, if j < k then j else k, if j < k then k else j);
    } else {
      PutElsewhere(sch, sid, m, j, c, k);
      UnionOwnership.PutKeys(sch, sid, m, j, c, k);
    }
  }

  lemma FieldReleasable(sch: Schema, sid: nat, i: nat)
    requires WfSchema(sch) && sid < |sch| && i < |sch[sid]|
    ensures KnownRef(sch, sch[sid][i]) && sch[sid][i].tag != 0
    ensures SizeAt(sch[sid], i) == DataAt(sch[sid], i) + sch[sid][i].sizeOffset
  {
    assert WfMessage(sch, sid) && OkField(sch, sid, i) && CounterBesideData(sch[sid], i);
  }

  /** One step of `pb_release`. */
  method ReleaseAt(memory: Memory, sch: Schema, ghost sid: nat, ghost src: Slot, iter: FieldIter, m: Store)
    returns (m1: Store)
    requires WfSchema(sch) && sid < |sch| && iter.start == sch[sid] && iter.Valid() && iter.pos < |sch[sid]|
    requires forall k {:trigger Waiting(sch, sid, src, m, k)} :: iter.pos <= k < |sch[sid]| ==>
               Waiting(sch, sid, src, m, k)
    modifies memory
    ensures StoreHeap(m1, memory.heap) == ReleaseStep(sch, sid, src, iter.pos, StoreHeap(m, old(memory.heap)))
    ensures forall k {:trigger Waiting(sch, sid, src, m1, k)} :: iter.pos < k < |sch[sid]| ==>
              Waiting(sch, sid, src, m1, k)
    decreases src, 0
  {
    ghost var n := iter.pos;
    FieldReleasable(sch, sid, n);
    assert Waiting(sch, sid, src, m, n);
    assert forall k {:trigger Waiting(sch, sid, src, m, k)} :: n < k < |sch[sid]| ==> Waiting(sch, sid, src, m, k);
    m1 := m;
    var f := iter.start[iter.pos];
    if iter.pData !in m {
      return;
    }
    var size := if f.sizeOffset != 0 then Look(m, iter.pSize) else Undef;
    if Inactive(f, size) {
      return;
    }
    assert m[iter.pData] == src.members[iter.pData];
    var c := ReleaseSingleField(memory, sch, f, m[iter.pData], size);
    m1 := m[iter.pData := c.data];
    if f.sizeOffset != 0 {
      m1 := m1[iter.pSize := c.size];
    }
    assert m1 == PutCell(sch[sid], m, n, c);
    forall k | n < k < |sch[sid]| ensures Waiting(sch, sid, src, m1, k) {
      assert Waiting(sch, sid, src, m, k);
      StillWaiting(sch, sid, src, m, n, c, k);
    }
  }

  /** What `ReleaseFields` does at field `n`. */
  function ReleaseStep(sch: Schema, sid: nat, src: Slot, n: nat, before: StoreHeap): StoreHeap
    requires WfSchema(sch) && sid < |sch| && n < |sch[sid]|
  {
    var fs := sch[sid];
    var c := CellOf(fs, Members(src), n);
    FieldReleasable(sch, sid, n);
    if !src.Sub? || DataAt(fs, n) !in src.members || Inactive(fs[n], c.size) then before
    else
      var r := ReleaseCell(sch, fs[n], src.members[DataAt(fs, n)], c.size, before.heap);
      StoreHeap(PutCell(fs, before.store, n, r.cell), r.heap)
  }

  lemma StepOfRelease(sch: Schema, sid: nat, src: Slot, h: A.Heap, n: nat)
    requires WfSchema(sch) && sid < |sch| && n < |sch[sid]|
    ensures ReleaseFields(sch, sid, src, h, n + 1) == ReleaseStep(sch, sid, src, n, ReleaseFields(sch, sid, src, h, n))
  {
  }

  /** `pb_release`. The fields are released in place, one after the other; that no
      release disturbs what the later ones read makes it the release of the whole. */
  method ReleaseMessage(memory: Memory, sch: Schema, sid: nat, src: Slot) returns (slot: Slot)
    requires WfSchema(sch) && sid < |sch|
    modifies memory
    ensures SlotHeap(slot, memory.heap) == ReleaseStruct(sch, sid, src, old(memory.heap))
    decreases src, 1
  {
    var m := Members(src);
    var iter := new FieldIter.Begin(sch[sid]);
    forall i | 0 <= i < |sch[sid]| ensures sch[sid][i].tag != 0 {
      FieldReleasable(sch, sid, i);
    }
    if FieldAt(sch[sid], 0).tag == 0 {
      return Sub(m);
    }
    while true
      invariant iter.Valid() && iter.start == sch[sid] && iter.pos < |sch[sid]|
      invariant StoreHeap(m, memory.heap) == ReleaseFields(sch, sid, src, old(memory.heap), iter.pos)
      invariant forall k {:trigger Waiting(sch, sid, src, m, k)} :: iter.pos <= k < |sch[sid]| ==>
                  Waiting(sch, sid, src, m, k)
      decreases |sch[sid]| - iter.pos
    {
      StepOfRelease(sch, sid, src, old(memory.heap), iter.pos);
      m := ReleaseAt(memory, sch, sid, src, iter, m);
      var more := iter.Next();
      if !more {
        break;
      }
    }
    slot := Sub(m);
  }
}
