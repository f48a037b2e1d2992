/** Every step of the decoder, successful or not, keeps the live blocks exactly those
    the struct stores and those that have been lost (`Losses`). */
module DecodeOwnership {
  import opened Bits
  import opened Varint
  import opened Descriptor
  import opened FieldIterator
  import opened Scalars
  import opened Defaults
  import opened Allocator
  import opened Release
  import D = DecodeSpec
  import opened StaticOnly
  import opened Ownership
  import opened ReleaseOwnership
  import opened DefaultOwnership
  import opened UnionOwnership
  import opened Losses

  /** What the macros of pb.h guarantee about a submessage field. */
  predicate Accounted(sch: Schema, f: Field)
    requires WfSchema(sch)
  {
    KnownRef(sch, f) && (f.ltype.SubMessage? <==> f.ptr.Fields?)
  }

  // --------------------------------------------------------------- one value

  lemma FillOwn(f: Field, r: seq<Byte>, n: nat, capacity: nat, dest: Slot, h: Heap, rest: multiset<nat>)
    requires f.atype.Pointer? && IsPtr(dest) && Balanced(h, rest + IdsPtr(dest))
    ensures var v := D.FillBuffer(f, r, n, capacity, dest, h); IsPtr(v.slot) && Balanced(v.heap, rest + IdsPtr(v.slot))
  {
    AllocateBalanced(h, dest, capacity, 1, rest);
  }

  lemma HeapBufferOwn(f: Field, s: seq<Byte>, dest: Slot, h: Heap, rest: multiset<nat>)
    requires OwnBuffer(f) && IsPtr(dest) && Balanced(h, rest + IdsPtr(dest))
    ensures var v := D.DecBuffer(f, s, dest, h); IsPtr(v.slot) && Balanced(v.heap, rest + IdsPtr(v.slot))
  {
    hide Varint32, Balanced, D.FillBuffer;
    if Varint32(s).Got? {
      var n := Varint32(s).value;
      FillOwn(f, Varint32(s).rest, n, if f.ltype.Bytes? then BYTES_HEADER + n else U32(n + 1), dest, h, rest);
    }
  }

  lemma BufferOwn(sch: Schema, f: Field, s: seq<Byte>, dest: Slot, h: Heap, rest: multiset<nat>)
    requires WfSchema(sch) && KnownRef(sch, f) && (f.ltype.String? || f.ltype.Bytes?)
    requires SoundDest(sch, f, dest) && Balanced(h, rest + IdsDest(Stored, sch, f, dest))
    ensures var v := D.DecBuffer(f, s, dest, h);
            SoundDest(sch, f, v.slot) && Balanced(v.heap, rest + IdsDest(Stored, sch, f, v.slot))
  {
    if f.atype.Pointer? {
      HeapBufferOwn(f, s, dest, h, rest);
    }
  }

  /** Items that own nothing. */
  lemma PlainOwn(sch: Schema, f: Field, s: seq<Byte>, dest: Slot, h: Heap)
    requires WfSchema(sch) && KnownRef(sch, f) && !f.ltype.SubMessage? && !f.ltype.String? && !f.ltype.Bytes?
    ensures forall x {:trigger IdsDest(Stored, sch, f, x)} :: IdsDest(Stored, sch, f, x) == multiset{}
    ensures forall x {:trigger SoundDest(sch, f, x)} :: SoundDest(sch, f, x)
    ensures D.DecValue(sch, f, s, dest, h).heap == h
  {
    hide DecScalar, Varint32;
  }

  lemma Lossless(sch: Schema, f: Field, s: seq<Byte>, dest: Slot, h: Heap, rest: multiset<nat>)
    requires WfSchema(sch) && KnownRef(sch, f) && !f.ltype.SubMessage?
    ensures rest + LostValue(sch, f, s, dest, h) == rest
  {
  }

  /** One item. */
  lemma {:induction false} ValueOwn(sch: Schema, f: Field, s: seq<Byte>, dest: Slot, h: Heap, rest: multiset<nat>)
    requires WfSchema(sch) && Accounted(sch, f)
    requires SoundDest(sch, f, dest) && Balanced(h, rest + IdsDest(Stored, sch, f, dest))
    ensures var v := D.DecValue(sch, f, s, dest, h);
            && SoundDest(sch, f, v.slot)
            && Balanced(v.heap, rest + LostValue(sch, f, s, dest, h) + IdsDest(Stored, sch, f, v.slot))
    decreases |s|, 2
  {
    hide Balanced, SoundDest, IdsDest, D.DecSub, D.DecBuffer, D.DecFixedBytes, DecScalar, WfSchema, LostValue;
    if f.ltype.SubMessage? {
      SubOwn(sch, f, s, dest, h, rest);
    } else {
      Lossless(sch, f, s, dest, h, rest);
      if f.ltype.String? || f.ltype.Bytes? {
        BufferOwn(sch, f, s, dest, h, rest);
      } else {
        PlainOwn(sch, f, s, dest, h);
      }
    }
  }

  /** What a struct stores: what initialising it keeps, and what it loses. */
  lemma InitLoses(sch: Schema, sid: nat, x: Slot, rest: multiset<nat>)
    requires WfSchema(sch) && sid < |sch| && SoundStruct(sch, sid, x)
    ensures LaidOut(sch, sid, x.members)
    ensures rest + IdsStruct(Stored, sch, sid, x) == (rest + LostInit(sch, sid, x)) + Lasting(sch, sid, x.members)
  {
    hide IdsFields, LastingFields, LaidOut;
    SoundIsLaidOut(sch, sid, x);
  }

  lemma {:induction false} SubOwn(sch: Schema, f: Field, s: seq<Byte>, dest: Slot, h: Heap, rest: multiset<nat>)
    requires WfSchema(sch) && Accounted(sch, f) && f.ltype.SubMessage?
    requires SoundDest(sch, f, dest) && Balanced(h, rest + IdsDest(Stored, sch, f, dest))
    ensures var v := D.DecSub(sch, f, s, dest, h);
            && SoundDest(sch, f, v.slot)
            && Balanced(v.heap, rest + LostValue(sch, f, s, dest, h) + IdsDest(Stored, sch, f, v.slot))
    decreases |s|, 1
  {
    var id := f.ptr.id;
    assert SoundStruct(sch, id, dest) && IdsDest(Stored, sch, f, dest) == IdsStruct(Stored, sch, id, dest);
    hide Balanced, SoundStruct, IdsFields, LostNoInit, LostDecode, LostInit, D.Decode, D.DecodeNoInit, LaidOut;
    assert dest == Sub(Members(dest));
    match D.Delimited(s)
    case NoChunk => AddNothing(rest);
    case Chunk(body, _) =>
      if f.htype.Repeated? {
        var gone := LostInit(sch, id, dest);
        InitLoses(sch, id, dest, rest);
        DecodeOwn(sch, id, body, Members(dest), h, rest + gone);
        Regroup(rest, gone, LostDecode(sch, id, body, Members(dest), h));
      } else {
        NoInitOwn(sch, id, body, Members(dest), h, rest);
      }
  }

  // --------------------------------------------------------------- one field

  /** A cell of the field, or the storage of its union while no member or another
      one is current and has been released. */
  predicate Startable(sch: Schema, f: Field, c: Cell)
    requires WfSchema(sch) && KnownRef(sch, f)
  {
    if Inactive(f, c.size) then f.atype.Pointer? ==> c.data.Nil? else SoundCell(sch, f, c.data, c.size)
  }

  /** What a step of a field gives back. */
  ghost predicate StepSound(sch: Schema, f: Field, o: D.StepOut, rest: multiset<nat>)
    requires WfSchema(sch) && KnownRef(sch, f)
  {
    && SoundCell(sch, f, o.cell.data, o.cell.size) && !Inactive(f, o.cell.size)
    && (f.htype.OneOf? ==> o.cell.size == Num(f.tag))
    && Balanced(o.heap, rest + IdsCell(Stored, sch, f, o.cell.data, o.cell.size))
  }

  lemma {:induction false} StaticOwn(sch: Schema, f: Field, wire: nat, s: seq<Byte>, c: Cell, h: Heap,
                                     rest: multiset<nat>)
    requires WfSchema(sch) && Accounted(sch, f) && f.atype.Static? && !f.htype.Repeated?
    requires Startable(sch, f, c) && Balanced(h, rest + IdsCell(Stored, sch, f, c.data, c.size))
    ensures StepSound(sch, f, D.StaticStep(sch, f, wire, s, c, h), rest + LostStatic(sch, f, s, c, h))
    decreases |s|, 4
  {
    hide Balanced, LostValue;
    if f.htype.OneOf? && f.ltype.SubMessage? && Inactive(f, c.size) {
      FreshIsEmpty(sch, f.ptr.id);
      ValueOwn(sch, f, s, FreshStruct(sch, f.ptr.id), h, rest);
    } else {
      ValueOwn(sch, f, s, c.data, h, rest);
    }
  }

  /** A new item starts out owning nothing. */
  lemma NewItemIsEmpty(sch: Schema, f: Field, was: Slot)
    requires WfSchema(sch) && Accounted(sch, f) && f.atype.Pointer?
    ensures SoundDest(sch, f, D.NewItem(sch, f, was)) && IdsDest(Stored, sch, f, D.NewItem(sch, f, was)) == multiset{}
  {
    if f.ltype.SubMessage? {
      FreshIsEmpty(sch, f.ptr.id);
    }
  }

  lemma {:induction false} SameEntries(sch: Schema, f: Field, a: seq<Slot>, b: seq<Slot>, n: int)
    requires WfSchema(sch) && KnownRef(sch, f) && n <= |a| && n <= |b|
    requires forall k :: 0 <= k < n ==> a[k] == b[k]
    ensures IdsEntries(Stored, sch, f, a, n) == IdsEntries(Stored, sch, f, b, n)
    ensures SoundEntries(sch, f, a, n) <==> SoundEntries(sch, f, b, n)
    decreases n
  {
    hide IdsDest, SoundDest;
    if n <= 0 {
    } else {
      SameEntries(sch, f, a, b, n - 1);
    }
  }

  /** `n` entries and one more. */
  lemma OneMoreEntry(sch: Schema, f: Field, was: seq<Slot>, cells: seq<Slot>, k: nat, x: Slot)
    requires WfSchema(sch) && KnownRef(sch, f) && k <= |was| && |cells| == k + 1
    requires forall j :: 0 <= j < k ==> cells[j] == was[j]
    requires SoundEntries(sch, f, was, k) && SoundDest(sch, f, x)
    ensures SoundEntries(sch, f, cells[k := x], k + 1)
    ensures IdsEntries(Stored, sch, f, cells[k := x], k + 1) ==
            IdsEntries(Stored, sch, f, was, k) + IdsDest(Stored, sch, f, x)
  {
    SameEntries(sch, f, was, cells[k := x], k);
  }

  lemma Interleave(rest: multiset<nat>, inner: multiset<nat>, block: multiset<nat>, lost: multiset<nat>,
                   ids: multiset<nat>)
    ensures ((rest + inner + block) + lost) + ids == (rest + lost) + (block + (inner + ids))
  {
  }

  /** The item decoded into the last entry of a block. */
  lemma {:induction false} LastEntryOwn(sch: Schema, f: Field, s: seq<Byte>, was: seq<Slot>, k: nat, b: Slot, h: Heap,
                                        rest: multiset<nat>)
    requires WfSchema(sch) && Accounted(sch, f) && f.atype.Pointer?
    requires k <= |was| && SoundEntries(sch, f, was, k) && b.Block? && |b.cells| == k + 1
    requires forall j :: 0 <= j < k ==> b.cells[j] == was[j]
    requires Balanced(h, rest + IdsEntries(Stored, sch, f, was, k) + multiset{b.id})
    ensures var item := D.NewItem(sch, f, ItemAt(b.cells, k));
            var v := D.DecValue(sch, f, s, item, h);
            var c := D.WithItem(b, k, v.slot);
            && c.Block? && SoundEntries(sch, f, c.cells, k + 1)
            && Balanced(v.heap, rest + LostValue(sch, f, s, item, h) +
                                (multiset{c.id} + IdsEntries(Stored, sch, f, c.cells, k + 1)))
    decreases |s|, 3
  {
    hide Balanced, IdsEntries, IdsDest, SoundEntries, SoundDest, D.NewItem, D.DecValue, LostValue, WfSchema;
    var inner := IdsEntries(Stored, sch, f, was, k);
    var own := rest + inner + multiset{b.id};
    var item := D.NewItem(sch, f, ItemAt(b.cells, k));
    NewItemIsEmpty(sch, f, ItemAt(b.cells, k));
    AddNothing(own);
    ValueOwn(sch, f, s, item, h, own);
    var v := D.DecValue(sch, f, s, item, h);
    OneMoreEntry(sch, f, was, b.cells, k, v.slot);
    Interleave(rest, inner, multiset{b.id}, LostValue(sch, f, s, item, h), IdsDest(Stored, sch, f, v.slot));
  }

  /** A heap array owns its block and what its entries own. */
  lemma HeapArrayIds(w: View, sch: Schema, f: Field, data: Slot, size: Slot)
    requires WfSchema(sch) && Accounted(sch, f) && f.atype.Pointer? && f.htype.Repeated?
    requires SoundCell(sch, f, data, size)
    ensures var k := Number(size);
            && IsPtr(data) && 0 <= k <= |Items(data)| && k <= PB_SIZE_MAX && SoundEntries(sch, f, Items(data), k)
            && size == Num(k)
            && IdsCell(w, sch, f, data, size) == IdsPtr(data) + IdsEntries(w, sch, f, Items(data), k)
  {
    hide IdsDest, SoundDest;
    AddNothing(IdsPtr(data));
  }

  lemma HeapArraySound(sch: Schema, f: Field, data: Slot, n: nat)
    requires WfSchema(sch) && Accounted(sch, f) && f.atype.Pointer? && f.htype.Repeated?
    requires data.Block? && n <= PB_SIZE_MAX && SoundEntries(sch, f, data.cells, n)
    ensures SoundCell(sch, f, data, Num(n))
    ensures IdsCell(Stored, sch, f, data, Num(n)) == multiset{data.id} + IdsEntries(Stored, sch, f, data.cells, n)
  {
    hide IdsDest, SoundDest;
  }

  lemma SingleCases(sch: Schema, f: Field, s: seq<Byte>, c: Cell, h: Heap)
    requires WfSchema(sch) && KnownRef(sch, f) && 0 <= Number(c.size) && f.htype.Repeated?
    ensures var k, o := Number(c.size), D.PointerSingle(sch, f, s, c, h);
            var a := AllocateField(h, c.data, f.dataSize, k + 1);
            var item := D.NewItem(sch, f, ItemAt(Items(a.slot), k));
            var v := D.DecValue(sch, f, s, item, a.heap);
            if k == PB_SIZE_MAX then o == D.StepOut(false, s, c, h) && LostPointer(sch, f, s, c, h) == multiset{}
            else if !a.ok then o == D.StepOut(false, s, c, a.heap) && LostPointer(sch, f, s, c, h) == multiset{}
            else
              && o == D.StepOut(v.ok, v.rest, Cell(D.WithItem(a.slot, k, v.slot), Num(k + 1)), v.heap)
              && LostPointer(sch, f, s, c, h) == LostValue(sch, f, s, item, a.heap)
  {
    hide AllocateField, D.NewItem, D.DecValue, D.WithItem, LostValue;
  }

  /** An unpacked element of a heap array. */
  lemma {:induction false} SingleOwn(sch: Schema, f: Field, s: seq<Byte>, c: Cell, h: Heap, rest: multiset<nat>)
    requires WfSchema(sch) && Accounted(sch, f) && f.atype.Pointer? && f.htype.Repeated?
    requires SoundCell(sch, f, c.data, c.size) && Balanced(h, rest + IdsCell(Stored, sch, f, c.data, c.size))
    ensures StepSound(sch, f, D.PointerSingle(sch, f, s, c, h), rest + LostPointer(sch, f, s, c, h))
    decreases |s|, 4
  {
    hide Balanced, AllocateField, D.NewItem, D.DecValue, D.WithItem, D.PointerSingle;
    hide IdsEntries, SoundEntries, SoundCell, IdsCell, IdsPtr, WfSchema, LostPointer, LostValue;
    var k := Number(c.size);
    var cells := Items(c.data);
    var inner := IdsEntries(Stored, sch, f, cells, k);
    HeapArrayIds(Stored, sch, f, c.data, c.size);
    SingleCases(sch, f, s, c, h);
    Aside(rest, IdsPtr(c.data), inner);
    AddNothing(rest);
    if k < PB_SIZE_MAX {
      AllocateBalanced(h, c.data, f.dataSize, k + 1, rest + inner);
      var a := AllocateField(h, c.data, f.dataSize, k + 1);
      if a.ok {
        LastEntryOwn(sch, f, s, cells, k, a.slot, a.heap, rest);
        var v := D.DecValue(sch, f, s, D.NewItem(sch, f, ItemAt(Items(a.slot), k)), a.heap);
        HeapArraySound(sch, f, D.WithItem(a.slot, k, v.slot), k + 1);
      }
    }
  }

  /** The room guessed for the rest of a packed block holds the next element and
      never exceeds what a counter can say. */
  lemma GrownRoom(left: nat, dataSize: nat, count: nat, room: nat)
    requires left > 0 && dataSize > 0 && count <= room && count + 1 > room && count < PB_SIZE_MAX
    ensures count + 1 <= D.Grown(left, dataSize, room) <= PB_SIZE_MAX
    ensures exists more: nat {:trigger EnoughFor(left, dataSize, more)} ::
              && EnoughFor(left, dataSize, more)
              && D.Grown(left, dataSize, room) == if room + more < 0xFFFF_FFFF then room + more else room + 1
  {
    var more := (left - 1) / dataSize + 1;
    CeilingDivides(left, dataSize);
    assert EnoughFor(left, dataSize, more);
  }

  /** The least number of entries that take at least `left` bytes. */
  predicate EnoughFor(left: nat, dataSize: nat, more: nat) {
    (more - 1) * dataSize < left <= more * dataSize
  }

  lemma CeilingDivides(left: nat, d: nat)
    requires left > 0 && d > 0
    ensures ((left - 1) / d + 1 - 1) * d < left <= ((left - 1) / d + 1) * d
  {
    var q, r := (left - 1) / d, (left - 1) % d;
    assert left - 1 == d * q + r;
    assert (q + 1) * d == q * d + d;
  }

  predicate Room(data: Slot, count: nat, room: nat) {
    IsPtr(data) && count <= room <= |Items(data)| && room <= PB_SIZE_MAX
  }

  lemma MakeRoomOwn(f: Field, left: nat, data: Slot, count: nat, room: nat, h: Heap, rest: multiset<nat>)
    requires left > 0 && f.dataSize > 0 && Room(data, count, room) && count < PB_SIZE_MAX
    requires Balanced(h, rest + IdsPtr(data))
    ensures var a := D.MakeRoom(f, left, data, count, room, h);
            && Balanced(a.heap, rest + IdsPtr(a.slot))
            && (if a.ok then Room(a.slot, count + 1, D.RoomFor(left, f.dataSize, count, room)) else a.slot == data)
  {
    if count + 1 > room {
      GrownRoom(left, f.dataSize, count, room);
      AllocateBalanced(h, data, f.dataSize, D.Grown(left, f.dataSize, room), rest);
    }
  }

  lemma StoredHasRoom(data: Slot, k: nat, x: Slot, room: nat)
    requires Room(data, k + 1, room)
    ensures Room(D.WithItem(data, k, x), k + 1, room) && IdsPtr(D.WithItem(data, k, x)) == IdsPtr(data)
  {
  }

  /** The packed loop: the account is kept, and what is stored has room. */
  lemma {:induction false} GrowOwn(f: Field, s: seq<Byte>, data: Slot, count: nat, room: nat, h: Heap,
                                   rest: multiset<nat>)
    requires f.dataSize > 0 && Room(data, count, room) && Balanced(h, rest + IdsPtr(data))
    ensures var g := D.GrowItems(f, s, data, count, room, h);
            && IsPtr(g.data) && g.count <= |Items(g.data)| && g.count <= PB_SIZE_MAX
            && Balanced(g.heap, rest + IdsPtr(g.data))
    decreases |s|
  {
    hide Balanced, D.MakeRoom, D.RoomFor, D.WithItem, DecScalar, ItemAt, IdsPtr;
    if s == [] || count >= PB_SIZE_MAX {
    } else {
      var room1 := D.RoomFor(|s|, f.dataSize, count, room);
      MakeRoomOwn(f, |s|, data, count, room, h, rest);
      var a := D.MakeRoom(f, |s|, data, count, room, h);
      if a.ok {
        var d := DecScalar(f, s, ItemAt(Items(a.slot), count));
        StoredHasRoom(a.slot, count, d.slot, room1);
        if d.ok {
          GrowOwn(f, d.rest, D.WithItem(a.slot, count, d.slot), count + 1, room1, a.heap, rest);
        }
      }
    }
  }

  /** A heap array of scalars owns its block and nothing else. */
  lemma ScalarBlock(sch: Schema, f: Field, data: Slot, n: nat)
    requires WfSchema(sch) && Accounted(sch, f) && f.atype.Pointer? && f.htype.Repeated? && Packable(f.ltype)
    requires IsPtr(data) && n <= |Items(data)| && n <= PB_SIZE_MAX
    ensures SoundCell(sch, f, data, Num(n)) && IdsCell(Stored, sch, f, data, Num(n)) == IdsPtr(data)
  {
    NoEntryBlocks(Stored, sch, f, Items(data), n);
    assert data.Block? ==> SoundEntries(sch, f, data.cells, n);
  }

  lemma PackedOwn(sch: Schema, f: Field, s: seq<Byte>, c: Cell, h: Heap, rest: multiset<nat>)
    requires WfSchema(sch) && Accounted(sch, f) && f.atype.Pointer? && f.htype.Repeated? && Packable(f.ltype)
    requires f.dataSize > 0
    requires SoundCell(sch, f, c.data, c.size) && Balanced(h, rest + IdsCell(Stored, sch, f, c.data, c.size))
    ensures StepSound(sch, f, D.PointerPacked(f, s, c, h), rest) && rest + LostPointer(sch, f, s, c, h) == rest
  {
    var k := Number(c.size);
    assert c.size == Num(k) && IsPtr(c.data) && 0 <= k <= |Items(c.data)| && k <= PB_SIZE_MAX;
    ScalarBlock(sch, f, c.data, k);
    var d := D.Delimited(s);
    if d.Chunk? {
      GrowOwn(f, d.body, c.data, k, k, h, rest);
      var g := D.GrowItems(f, d.body, c.data, k, k, h);
      ScalarBlock(sch, f, g.data, g.count);
      GrowCell(f, s, c, h, k);
    }
  }

  lemma GrowCell(f: Field, s: seq<Byte>, c: Cell, h: Heap, k: nat)
    requires f.dataSize > 0 && D.Delimited(s).Chunk? && c.size == Num(k)
    ensures var g := D.GrowItems(f, D.Delimited(s).body, c.data, k, k, h);
            D.PointerPacked(f, s, c, h).cell == Cell(g.data, Num(g.count)) && D.PointerPacked(f, s, c, h).heap == g.heap
  {
  }

  predicate SoundBlock(sch: Schema, f: Field, data: Slot)
    requires WfSchema(sch) && KnownRef(sch, f)
  {
    IsPtr(data) && (data.Block? ==> SoundEntries(sch, f, data.cells, 1))
  }

  function IdsBlock(sch: Schema, f: Field, data: Slot): multiset<nat>
    requires WfSchema(sch) && KnownRef(sch, f)
  {
    IdsPtr(data) + IdsEntries(Stored, sch, f, Items(data), 1)
  }

  /** The slot and the account after the block of a single pointer field has been
      allocated, which may fail, and its item decoded. */
  function DecBlock(sch: Schema, f: Field, s: seq<Byte>, data: Slot, h: Heap): AllocOut
    requires WfSchema(sch) && KnownRef(sch, f)
  {
    var a := AllocateField(h, data, f.dataSize, 1);
    if !a.ok then AllocOut(false, data, a.heap)
    else
      var v := D.DecValue(sch, f, s, D.NewItem(sch, f, ItemAt(Items(a.slot), 0)), a.heap);
      AllocOut(v.ok, D.WithItem(a.slot, 0, v.slot), v.heap)
  }

  /** What decoding into a new block loses. */
  function LostBlock(sch: Schema, f: Field, s: seq<Byte>, data: Slot, h: Heap): multiset<nat>
    requires WfSchema(sch) && KnownRef(sch, f)
  {
    var a := AllocateField(h, data, f.dataSize, 1);
    if f.ltype.SubMessage? && a.ok then LostValue(sch, f, s, D.NewItem(sch, f, ItemAt(Items(a.slot), 0)), a.heap)
    else multiset{}
  }

  lemma {:induction false} BlockOwn(sch: Schema, f: Field, s: seq<Byte>, data: Slot, h: Heap, rest: multiset<nat>)
    requires WfSchema(sch) && Accounted(sch, f) && f.atype.Pointer?
    requires SoundBlock(sch, f, data) && IdsEntries(Stored, sch, f, Items(data), 1) == multiset{}
    requires Balanced(h, rest + IdsPtr(data))
    ensures var b := DecBlock(sch, f, s, data, h);
            && SoundBlock(sch, f, b.slot)
            && Balanced(b.heap, rest + LostBlock(sch, f, s, data, h) + IdsBlock(sch, f, b.slot))
    decreases |s|, 4
  {
    hide Balanced, LostValue, AllocateField;
    AllocateBalanced(h, data, f.dataSize, 1, rest);
    var a := AllocateField(h, data, f.dataSize, 1);
    AddNothing(rest);
    if a.ok {
      LastEntryOwn(sch, f, s, [], 0, a.slot, a.heap, rest);
      if !f.ltype.SubMessage? {
        Lossless(sch, f, s, D.NewItem(sch, f, ItemAt(Items(a.slot), 0)), a.heap, rest);
      }
    } else {
      assert IdsBlock(sch, f, data) == IdsPtr(data);
    }
  }

  lemma BlockCell(sch: Schema, f: Field, data: Slot, size: Slot)
    requires WfSchema(sch) && Accounted(sch, f) && f.atype.Pointer? && !f.htype.Repeated? && !OwnBuffer(f)
    requires !Inactive(f, size)
    ensures SoundCell(sch, f, data, size) <==> SoundBlock(sch, f, data)
    ensures SoundBlock(sch, f, data) ==> IdsCell(Stored, sch, f, data, size) == IdsBlock(sch, f, data)
  {
    assert IdsEntries(Stored, sch, f, [], 1) == IdsEntries(Stored, sch, f, [], 0) + multiset{};
  }

  lemma OneBufferOwn(sch: Schema, f: Field, s: seq<Byte>, c: Cell, h: Heap, rest: multiset<nat>)
    requires WfSchema(sch) && Accounted(sch, f) && OwnBuffer(f) && !f.htype.Repeated?
    requires Startable(sch, f, c) && Balanced(h, rest + IdsCell(Stored, sch, f, c.data, c.size))
    ensures StepSound(sch, f, D.PointerOne(sch, f, s, c, h), rest + LostPointer(sch, f, s, c, h))
  {
    assert IdsCell(Stored, sch, f, c.data, c.size) == IdsPtr(c.data);
    HeapBufferOwn(f, s, c.data, h, rest);
    hide Balanced;
    assert D.DecValue(sch, f, s, c.data, h) == D.DecBuffer(f, s, c.data, h);
    AddNothing(rest);
  }

  /** A required, optional or oneof pointer field: a submessage that is already
      there is released first. */
  lemma {:induction false} OneOwn(sch: Schema, f: Field, s: seq<Byte>, c: Cell, h: Heap, rest: multiset<nat>)
    requires WfSchema(sch) && Accounted(sch, f) && f.atype.Pointer? && !f.htype.Repeated?
    requires Startable(sch, f, c) && Balanced(h, rest + IdsCell(Stored, sch, f, c.data, c.size))
    ensures StepSound(sch, f, D.PointerOne(sch, f, s, c, h), rest + LostPointer(sch, f, s, c, h))
    decreases |s|, 5
  {
    hide Balanced, LostValue;
    if OwnBuffer(f) {
      OneBufferOwn(sch, f, s, c, h, rest);
    } else {
      var size := if f.htype.OneOf? then Num(f.tag) else c.size;
      var r := Emptied(sch, f, c, h, rest);
      BlockOwn(sch, f, s, r.cell.data, r.heap, rest + LostThere(sch, f, c));
      BlockCell(sch, f, DecBlock(sch, f, s, r.cell.data, r.heap).slot, size);
      OneIsBlock(sch, f, s, c, h, r);
      Regroup(rest, LostThere(sch, f, c), LostBlock(sch, f, s, r.cell.data, r.heap));
    }
  }

  /** What releasing the submessage already there loses. */
  function LostThere(sch: Schema, f: Field, c: Cell): multiset<nat>
    requires WfSchema(sch) && KnownRef(sch, f)
  {
    if f.ltype.SubMessage? && !c.data.Nil? then OutOfReach(sch, f, c) else multiset{}
  }

  lemma OneIsBlock(sch: Schema, f: Field, s: seq<Byte>, c: Cell, h: Heap, r: CellHeap)
    requires WfSchema(sch) && KnownRef(sch, f) && !(f.ltype.String? || f.ltype.Bytes?)
    requires r == if f.ltype.SubMessage? && !c.data.Nil? then ReleaseCell(sch, f, c.data, c.size, h) else CellHeap(c, h)
    ensures var b := DecBlock(sch, f, s, r.cell.data, r.heap);
            var o := D.PointerOne(sch, f, s, c, h);
            && o.cell == Cell(b.slot, if f.htype.OneOf? then Num(f.tag) else c.size) && o.heap == b.heap
            && (!f.htype.Repeated? ==>
                  LostPointer(sch, f, s, c, h) == LostThere(sch, f, c) + LostBlock(sch, f, s, r.cell.data, r.heap))
  {
    hide LostValue, D.DecValue;
  }

  lemma {:induction false} Emptied(sch: Schema, f: Field, c: Cell, h: Heap, rest: multiset<nat>) returns (r: CellHeap)
    requires WfSchema(sch) && Accounted(sch, f) && f.atype.Pointer? && !f.htype.Repeated? && !OwnBuffer(f)
    requires Startable(sch, f, c) && Balanced(h, rest + IdsCell(Stored, sch, f, c.data, c.size))
    ensures r == if f.ltype.SubMessage? && !c.data.Nil? then ReleaseCell(sch, f, c.data, c.size, h) else CellHeap(c, h)
    ensures SoundBlock(sch, f, r.cell.data) && IdsEntries(Stored, sch, f, Items(r.cell.data), 1) == multiset{}
    ensures Balanced(r.heap, rest + LostThere(sch, f, c) + IdsPtr(r.cell.data))
  {
    assert IdsEntries(Stored, sch, f, [], 1) == IdsEntries(Stored, sch, f, [], 0) + multiset{};
    AddNothing(rest);
    if f.ltype.SubMessage? && !c.data.Nil? {
      ReleaseLoses(sch, f, c, h, rest);
      r := ReleaseCell(sch, f, c.data, c.size, h);
      AddNothing(rest + OutOfReach(sch, f, c));
    } else {
      r := CellHeap(c, h);
      if !f.ltype.SubMessage? {
        NoEntryBlocks(Stored, sch, f, Items(c.data), 1);
      }
      if !Inactive(f, c.size) {
        BlockCell(sch, f, c.data, c.size);
        assert IdsBlock(sch, f, c.data) == IdsPtr(c.data);
      }
    }
  }

  /** Releasing a field frees what it reaches and loses the rest. */
  lemma {:induction false} ReleaseLoses(sch: Schema, f: Field, c: Cell, h: Heap, rest: multiset<nat>)
    requires WfSchema(sch) && KnownRef(sch, f) && (f.ltype.SubMessage? ==> f.ptr.Fields?) && !f.atype.Callback?
    requires SoundCell(sch, f, c.data, c.size) && Balanced(h, rest + IdsCell(Stored, sch, f, c.data, c.size))
    ensures Balanced(ReleaseCell(sch, f, c.data, c.size, h).heap, rest + OutOfReach(sch, f, c))
  {
    BalancedIsBounded(h, rest + IdsCell(Stored, sch, f, c.data, c.size));
    hide Balanced, Bounded, IdsCell, ReleaseCell, SoundCell;
    ReachedCell(sch, f, c.data, c.size);
    var reached, left := IdsCell(Reached, sch, f, c.data, c.size), OutOfReach(sch, f, c);
    assert rest + IdsCell(Stored, sch, f, c.data, c.size) == (rest + left) + reached;
    ReleaseCellOwn(sch, f, c.data, c.size, h, rest + left);
  }

  /** `pb_release_union_field` on a sound struct never fails; it frees the blocks it
      reaches of another current member and keeps those of the same one. */
  lemma {:induction false} UnionReleased(sch: Schema, sid: nat, i: nat, c: Cell, h: Heap, rest: multiset<nat>)
    requires WfSchema(sch) && sid < |sch| && i < |sch[sid]| && sch[sid][i].htype.OneOf?
    requires SoundGroup(sch, sid, i, c) && Balanced(h, rest + IdsGroup(Stored, sch, sid, i, c))
    ensures KnownRef(sch, sch[sid][i])
    ensures var u := D.ReleaseUnion(sch, sid, i, c, h);
            && u.ok && Startable(sch, sch[sid][i], u.cell)
            && Balanced(u.heap, rest + LostUnion(sch, sid, i, c) +
                        IdsCell(Stored, sch, sch[sid][i], u.cell.data, u.cell.size))
  {
    hide Balanced, OutOfReach;
    var fs := sch[sid];
    assert WfMessage(sch, sid) && OkField(sch, sid, i);
    assert SoundMember(sch, sid, i, c);
    var was := Number(c.size);
    AddNothing(rest);
    if was == fs[i].tag {
      MatchIsUnique(fs, was, i);
    } else if was != 0 {
      var j := FirstMatch(fs, was, 0);
      HolderInUnion(sch, sid, i, c);
      assert OkField(sch, sid, j) && SoundMember(sch, sid, j, c);
      ReleaseLoses(sch, fs[j], c, h, rest);
      ReleaseCellEmpty(sch, fs[j], c.data, c.size, h);
      AddNothing(rest + OutOfReach(sch, fs[j], c));
    }
  }

  /** A cell written by its field is sound for the whole union. */
  lemma CurrentMember(w: View, sch: Schema, sid: nat, i: nat, c: Cell)
    requires WfSchema(sch) && sid < |sch| && i < |sch[sid]| && KnownRef(sch, sch[sid][i])
    requires SoundCell(sch, sch[sid][i], c.data, c.size)
    requires sch[sid][i].htype.OneOf? ==> c.size == Num(sch[sid][i].tag)
    ensures SoundGroup(sch, sid, i, c) && IdsGroup(w, sch, sid, i, c) == IdsCell(w, sch, sch[sid][i], c.data, c.size)
  {
    var fs := sch[sid];
    assert WfMessage(sch, sid) && OkField(sch, sid, i);
    if fs[i].htype.OneOf? {
      MatchIsUnique(fs, fs[i].tag, i);
    }
    forall k | 0 <= k < |fs| && UnionHead(fs, k) == UnionHead(fs, i) ensures SoundMember(sch, sid, k, c) {
      if k != i {
        OneOfHead(fs, k, i);
        assert OkField(sch, sid, k) && TagsDiffer(fs, if i < k then i else k, if i < k then k else i);
      }
    }
  }

  lemma Difference(others: multiset<nat>, one: multiset<nat>)
    ensures (others + one) - one == others
  {
  }

  lemma SwapLast(sch: Schema, f: Field, items: seq<Slot>, k: nat, x: Slot)
    requires WfSchema(sch) && KnownRef(sch, f) && k < |items|
    ensures IdsEntries(Stored, sch, f, items, k + 1) ==
            IdsEntries(Stored, sch, f, items, k) + IdsDest(Stored, sch, f, items[k])
    ensures IdsEntries(Stored, sch, f, items[k := x], k + 1) ==
            IdsEntries(Stored, sch, f, items, k) + IdsDest(Stored, sch, f, x)
  {
    hide IdsDest, IdsEntries, WfSchema, KnownRef, SoundEntries;
    EntriesStep(Stored, sch, f, items, k);
    EntriesStep(Stored, sch, f, items[k := x], k);
    SameEntries(sch, f, items, items[k := x], k);
  }

  /** An array with entry `k` taken out: what the others own. */
  lemma {:induction false} EntrySwap(sch: Schema, f: Field, items: seq<Slot>, k: nat, x: Slot, n: nat)
      returns (others: multiset<nat>)
    requires WfSchema(sch) && KnownRef(sch, f) && k < n <= |items|
    ensures IdsEntries(Stored, sch, f, items, n) == others + IdsDest(Stored, sch, f, items[k])
    ensures IdsEntries(Stored, sch, f, items[k := x], n) == others + IdsDest(Stored, sch, f, x)
    ensures others == IdsEntries(Stored, sch, f, items, n) - IdsDest(Stored, sch, f, items[k])
    decreases n
  {
    hide IdsDest, IdsEntries, WfSchema, KnownRef;
    var mine, next := IdsDest(Stored, sch, f, items[k]), IdsDest(Stored, sch, f, x);
    if k == n - 1 {
      others := IdsEntries(Stored, sch, f, items, k);
      SwapLast(sch, f, items, k, x);
    } else {
      var last := IdsDest(Stored, sch, f, items[n - 1]);
      var before := EntrySwap(sch, f, items, k, x, n - 1);
      others := before + last;
      EntriesStep(Stored, sch, f, items, n - 1);
      EntriesStep(Stored, sch, f, items[k := x], n - 1);
      Exchange(before, mine, last);
      Exchange(before, next, last);
    }
    Difference(others, mine);
  }

  /** The array with one more entry, which `x` has been decoded to. */
  lemma ArraySwap(sch: Schema, f: Field, c: Cell, k: nat, x: Slot) returns (others: multiset<nat>)
    requires WfSchema(sch) && KnownRef(sch, f) && PointerArray(sch, f) && SoundArray(sch, f, c.data, c.size)
    requires k < f.arraySize && SoundDest(sch, f, x)
    ensures var swapped := Arr(SetItem(Items(c.data), k, x));
            && SoundArray(sch, f, swapped, Num(k + 1))
            && SoundDest(sch, f, Items(c.data)[k])
            && IdsCell(Stored, sch, f, c.data, c.size) == others + IdsDest(Stored, sch, f, Items(c.data)[k])
            && IdsCell(Stored, sch, f, swapped, Num(k + 1)) == others + IdsDest(Stored, sch, f, x)
            && others == IdsCell(Stored, sch, f, c.data, c.size) - IdsDest(Stored, sch, f, Items(c.data)[k])
  {
    hide IdsDest, SoundDest;
    var items := c.data.items;
    others := EntrySwap(sch, f, items, k, x, f.arraySize);
    assert SoundEntries(sch, f, items[k := x], |items|);
  }

  /** An element of a static array of submessages that hold pointers: the entry is
      initialised, not released, so that whatever it owned is lost. */
  lemma {:induction false} ArrayOwn(sch: Schema, f: Field, s: seq<Byte>, c: Cell, h: Heap, rest: multiset<nat>)
    requires WfSchema(sch) && Accounted(sch, f) && PointerArray(sch, f) && 0 <= Number(c.size)
    requires SoundCell(sch, f, c.data, c.size) && Balanced(h, rest + IdsCell(Stored, sch, f, c.data, c.size))
    ensures StepSound(sch, f, D.StaticSingle(sch, f, s, c, h), rest + LostStatic(sch, f, s, c, h))
    decreases |s|, 3
  {
    hide Balanced, LostValue, IdsDest, SoundDest, D.DecValue;
    var k, items := Number(c.size), Items(c.data);
    assert SoundArray(sch, f, c.data, c.size);
    AddNothing(rest);
    if k < f.arraySize {
      var item := items[k];
      var v := D.DecValue(sch, f, s, item, h);
      var lost := LostValue(sch, f, s, item, h);
      var same := ArraySwap(sch, f, c, k, item);
      Regroup(rest, same, IdsDest(Stored, sch, f, item));
      ValueOwn(sch, f, s, item, h, rest + same);
      var others := ArraySwap(sch, f, c, k, v.slot);
      Interchange(rest, same, lost, IdsDest(Stored, sch, f, v.slot));
    } else {
      assert SoundArray(sch, f, c.data, Num(k + 1));
    }
  }

  lemma Interchange(rest: multiset<nat>, others: multiset<nat>, lost: multiset<nat>, ids: multiset<nat>)
    ensures ((rest + others) + lost) + ids == (rest + lost) + (others + ids)
  {
  }

  lemma StepIsSingle(sch: Schema, sid: nat, i: nat, wire: nat, s: seq<Byte>, c: Cell, h: Heap)
    requires WfSchema(sch) && sid < |sch| && i < |sch[sid]| && KnownRef(sch, sch[sid][i])
    requires PointerArray(sch, sch[sid][i])
    ensures D.FieldStep(sch, sid, i, wire, s, c, h) == D.StaticSingle(sch, sch[sid][i], s, c, h)
  {
    hide D.StaticSingle, D.StaticPacked, D.DecValue;
  }

  lemma ArrayUntouched(sch: Schema, sid: nat, i: nat, wire: nat, s: seq<Byte>, c: Cell, h: Heap)
    requires WfSchema(sch) && sid < |sch| && i < |sch[sid]|
    requires sch[sid][i].atype.Static? && sch[sid][i].htype.Repeated?
    ensures KnownRef(sch, sch[sid][i])
    ensures !PointerArray(sch, sch[sid][i]) ==>
            var o := D.FieldStep(sch, sid, i, wire, s, c, h);
            o.heap == h && SoundGroup(sch, sid, i, o.cell) && IdsGroup(Stored, sch, sid, i, o.cell) == multiset{}
    ensures !PointerArray(sch, sch[sid][i]) ==> IdsGroup(Stored, sch, sid, i, c) == multiset{}
  {
    assert WfMessage(sch, sid) && OkField(sch, sid, i);
    if PointerArray(sch, sch[sid][i]) {
      return;
    }
    forall j | 0 <= j < |sch[sid]| && UnionHead(sch[sid], j) == UnionHead(sch[sid], i)
      ensures StaticField(sch, sid, j)
    {
      if j != i {
        OneOfHead(sch[sid], j, i);
      }
    }
    FieldStatic(sch, sid, i, wire, s, c, h, h);
    CurrentMember(Stored, sch, sid, i, D.FieldStep(sch, sid, i, wire, s, c, h).cell);
  }

  lemma {:induction false} StaticArrayOwn(sch: Schema, sid: nat, i: nat, wire: nat, s: seq<Byte>, c: Cell, h: Heap,
                                          rest: multiset<nat>)
    requires WfSchema(sch) && sid < |sch| && i < |sch[sid]|
    requires sch[sid][i].atype.Static? && sch[sid][i].htype.Repeated?
    requires D.FixedCount(sch[sid][i]) ==> 0 <= Number(c.size)
    requires SoundGroup(sch, sid, i, c) && Balanced(h, rest + IdsGroup(Stored, sch, sid, i, c))
    ensures var o := D.FieldStep(sch, sid, i, wire, s, c, h);
            && SoundGroup(sch, sid, i, o.cell)
            && Balanced(o.heap, rest + LostField(sch, sid, i, s, c, h) + IdsGroup(Stored, sch, sid, i, o.cell))
    decreases |s|, 5
  {
    hide Balanced;
    var f := sch[sid][i];
    ArrayUntouched(sch, sid, i, wire, s, c, h);
    assert WfMessage(sch, sid) && OkField(sch, sid, i);
    if PointerArray(sch, f) {
      assert SoundMember(sch, sid, i, c) && SoundArray(sch, f, c.data, c.size);
      ArrayOwn(sch, f, s, c, h, rest);
      StepIsSingle(sch, sid, i, wire, s, c, h);
      CurrentMember(Stored, sch, sid, i, D.StaticSingle(sch, f, s, c, h).cell);
    }
    AddNothing(rest);
    AddNothing(LostStatic(sch, f, s, c, h));
  }

  /** `decode_field`: what the cell owns before and after. */
  lemma {:induction false} FieldOwn(sch: Schema, sid: nat, i: nat, wire: nat, s: seq<Byte>, c: Cell, h: Heap,
                                    rest: multiset<nat>)
    requires WfSchema(sch) && sid < |sch| && i < |sch[sid]| && (D.FixedCount(sch[sid][i]) ==> 0 <= Number(c.size))
    requires SoundGroup(sch, sid, i, c) && Balanced(h, rest + IdsGroup(Stored, sch, sid, i, c))
    ensures var o := D.FieldStep(sch, sid, i, wire, s, c, h);
            && SoundGroup(sch, sid, i, o.cell)
            && Balanced(o.heap, rest + LostField(sch, sid, i, s, c, h) + IdsGroup(Stored, sch, sid, i, o.cell))
    decreases |s|, 6
  {
    hide Balanced, LostStatic, LostPointer, LostUnion;
    var f := sch[sid][i];
    assert WfMessage(sch, sid) && OkField(sch, sid, i);
    if f.atype.Static? && f.htype.Repeated? {
      assert SoundMember(sch, sid, i, c);
      StaticArrayOwn(sch, sid, i, wire, s, c, h, rest);
    } else {
      var u := if f.htype.OneOf? then D.ReleaseUnion(sch, sid, i, c, h) else D.UnionOut(true, c, h);
      var gone := if f.htype.OneOf? then LostUnion(sch, sid, i, c) else multiset{};
      AddNothing(rest);
      if f.htype.OneOf? {
        UnionReleased(sch, sid, i, c, h, rest);
      } else {
        assert SoundMember(sch, sid, i, c);
      }
      if f.atype.Static? {
        StaticOwn(sch, f, wire, s, u.cell, u.heap, rest + gone);
        Regroup(rest, gone, LostStatic(sch, f, s, u.cell, u.heap));
      } else {
        PointerOwn(sch, f, wire, s, u.cell, u.heap, rest + gone);
        Regroup(rest, gone, LostPointer(sch, f, s, u.cell, u.heap));
      }
      CurrentMember(Stored, sch, sid, i, D.FieldStep(sch, sid, i, wire, s, c, h).cell);
    }
  }

  lemma {:induction false} PointerOwn(sch: Schema, f: Field, wire: nat, s: seq<Byte>, c: Cell, h: Heap,
                                      rest: multiset<nat>)
    requires WfSchema(sch) && Accounted(sch, f) && f.atype.Pointer? && f.dataSize > 0
    requires Startable(sch, f, c) && Balanced(h, rest + IdsCell(Stored, sch, f, c.data, c.size))
    ensures StepSound(sch, f, D.PointerStep(sch, f, wire, s, c, h), rest + LostPointer(sch, f, s, c, h))
    decreases |s|, 6, 0
  {
    if !f.htype.Repeated? {
      OneOwn(sch, f, s, c, h, rest);
    } else if wire == WT_STRING && Packable(f.ltype) {
      PackedOwn(sch, f, s, c, h, rest);
    } else {
      SingleOwn(sch, f, s, c, h, rest);
    }
  }

  // ---------------------------------------------------------------- messages

  /** The struct is sound, and the live blocks are `rest` and those it stores. */
  ghost predicate Owned(sch: Schema, sid: nat, m: Store, h: Heap, rest: multiset<nat>)
    requires WfSchema(sch) && sid < |sch|
  {
    SoundStruct(sch, sid, Sub(m)) && Balanced(h, rest + IdsStruct(Stored, sch, sid, Sub(m)))
  }

  /** A field without a counter in the struct: the local one owns nothing. */
  lemma RunCellOwn(w: View, sch: Schema, sid: nat, i: nat, run: D.Run)
    requires WfSchema(sch) && sid < |sch| && i < |sch[sid]| && SoundStruct(sch, sid, Sub(run.store))
    ensures var c := D.RunCell(sch[sid], run, i);
            && SoundGroup(sch, sid, i, c)
            && IdsStruct(w, sch, sid, Sub(run.store)) ==
               Outside(w, sch, sid, run.store, |sch[sid]|, i) + IdsGroup(w, sch, sid, i, c)
  {
    var c := D.RunCell(sch[sid], run, i);
    CellIsSound(sch, sid, run.store, i);
    SplitStruct(w, sch, sid, run.store, i);
    NormalIds(w, sch, sid, i, c);
    NormalIds(w, sch, sid, i, CellOf(sch[sid], run.store, i));
  }

  lemma {:induction false} KnownOwn(sch: Schema, sid: nat, i: nat, wire: nat, s: seq<Byte>, run: D.Run,
                                    rest: multiset<nat>)
    requires WfSchema(sch) && sid < |sch| && i < |sch[sid]| && 0 <= run.fixedSize
    requires Owned(sch, sid, run.store, run.heap, rest)
    ensures var o := D.KnownRecord(sch, sid, i, wire, s, run).run;
            Owned(sch, sid, o.store, o.heap, rest + LostKnown(sch, sid, i, s, run))
    decreases |s|, 7
  {
    hide Balanced, LostField;
    var fs := sch[sid];
    AddNothing(rest);
    if !(D.FixedCount(fs[i]) && run.fixed != i && !D.FixedDone(fs, run)) {
      var run1 := (if D.FixedCount(fs[i]) then D.EnterFixed(run, i) else run).(seen := run.seen + D.Seen(fs, i));
      var c := D.RunCell(fs, run1, i);
      var others := Outside(Stored, sch, sid, run.store, |fs|, i);
      RunCellOwn(Stored, sch, sid, i, run1);
      Regroup(rest, others, IdsGroup(Stored, sch, sid, i, c));
      FieldOwn(sch, sid, i, wire, s, c, run1.heap, rest + others);
      var o := D.FieldStep(sch, sid, i, wire, s, c, run1.heap);
      PutOwn(Stored, sch, sid, run.store, i, o.cell);
      Interchange(rest, others, LostField(sch, sid, i, s, c, run1.heap), IdsGroup(Stored, sch, sid, i, o.cell));
    }
  }

  lemma {:induction false} PackedCounter(f: Field, s: seq<Byte>, items: seq<Slot>, count: nat)
    ensures 0 <= D.PackedItems(f, s, items, count).count
    decreases |s|
  {
    hide DecScalar;
    if s == [] || count >= f.arraySize {
    } else {
      var d := DecScalar(f, s, ItemAt(items, count));
      if d.ok {
        PackedCounter(f, d.rest, SetItem(items, count, d.slot), count + 1);
      }
    }
  }

  lemma ArrayCounter(sch: Schema, f: Field, wire: nat, s: seq<Byte>, c: Cell, h: Heap)
    requires WfSchema(sch) && KnownRef(sch, f) && f.htype.Repeated? && 0 <= Number(c.size)
    ensures 0 <= Number(D.StaticStep(sch, f, wire, s, c, h).cell.size)
  {
    hide D.DecValue, D.PackedItems;
    if D.Delimited(s).Chunk? {
      PackedCounter(f, D.Delimited(s).body, Items(c.data), Number(c.size));
    }
  }

  /** The shared counter never becomes negative. */
  lemma CounterStays(sch: Schema, sid: nat, i: nat, wire: nat, s: seq<Byte>, run: D.Run)
    requires WfSchema(sch) && sid < |sch| && i < |sch[sid]| && 0 <= run.fixedSize
    ensures 0 <= D.KnownRecord(sch, sid, i, wire, s, run).run.fixedSize
  {
    hide D.StaticStep, D.PointerStep, D.ReleaseUnion, PutCell, CellOf;
    var f := sch[sid][i];
    assert WfMessage(sch, sid) && OkField(sch, sid, i);
    if D.FixedCount(f) {
      var run1 := D.EnterFixed(run, i).(seen := run.seen + D.Seen(sch[sid], i));
      ArrayCounter(sch, f, wire, s, D.RunCell(sch[sid], run1, i), run1.heap);
    }
  }

  lemma {:induction false} RecordOwn(sch: Schema, sid: nat, s: seq<Byte>, run: D.Run, rest: multiset<nat>)
    requires WfSchema(sch) && sid < |sch| && 0 <= run.fixedSize && Owned(sch, sid, run.store, run.heap, rest)
    ensures var o := D.Record(sch, sid, s, run);
            && Owned(sch, sid, o.run.store, o.run.heap, rest + LostRecord(sch, sid, s, run))
            && (o.ok ==> 0 <= o.run.fixedSize)
    decreases |s|, 7
  {
    hide Owned, LostKnown, D.KnownRecord;
    AddNothing(rest);
    match D.DecodeTag(s)
    case Tag(number, wire, after) =>
      if Known(sch[sid], number) && sch[sid] != [] {
        var i := FirstMatch(sch[sid], number, 0);
        KnownOwn(sch, sid, i, wire, after, run, rest);
        CounterStays(sch, sid, i, wire, after, run);
      } else {
        EmptyTable(sch, sid, s, run, rest);
      }
    case _ =>
  }

  /** The terminator of an empty table is decoded into a struct that owns nothing. */
  lemma EmptyTable(sch: Schema, sid: nat, s: seq<Byte>, run: D.Run, rest: multiset<nat>)
    requires WfSchema(sch) && sid < |sch| && Owned(sch, sid, run.store, run.heap, rest)
    requires match D.DecodeTag(s)
             case Tag(number, _, _) => !Known(sch[sid], number) || sch[sid] == []
             case _ => false
    ensures var o := D.Record(sch, sid, s, run).run;
            Owned(sch, sid, o.store, o.heap, rest) && o.fixedSize == run.fixedSize
  {
  }

  /** Every step of the message loop keeps the account. */
  lemma {:induction false} RecordsOwn(sch: Schema, sid: nat, s: seq<Byte>, run: D.Run, rest: multiset<nat>)
    requires WfSchema(sch) && sid < |sch| && 0 <= run.fixedSize && Owned(sch, sid, run.store, run.heap, rest)
    ensures var o := D.Records(sch, sid, s, run).run;
            Owned(sch, sid, o.store, o.heap, rest + LostRecords(sch, sid, s, run))
    decreases |s|, 8
  {
    hide Owned, D.Record, LostRecord;
    AddNothing(rest);
    if s == [] {
    } else {
      RecordOwn(sch, sid, s, run, rest);
      var o := D.Record(sch, sid, s, run);
      var lost := LostRecord(sch, sid, s, run);
      AddNothing(lost);
      if o.ok && !o.stopped {
        RecordsOwn(sch, sid, o.rest, o.run, rest + lost);
        Regroup(rest, lost, LostRecords(sch, sid, o.rest, o.run));
      }
    }
  }

  /** `pb_decode_noinit`, successful or not, leaves the live blocks exactly those the
      struct stores, each once, and those that were lost. */
  lemma {:induction false} NoInitOwn(sch: Schema, sid: nat, s: seq<Byte>, m: Store, h: Heap, rest: multiset<nat>)
    requires WfSchema(sch) && sid < |sch| && Owned(sch, sid, m, h, rest)
    ensures var o := D.DecodeNoInit(sch, sid, s, m, h);
            Owned(sch, sid, o.store, o.heap, rest + LostNoInit(sch, sid, s, m, h))
    decreases |s|, 9
  {
    RecordsOwn(sch, sid, s, D.Start(m, h), rest);
  }

  /** The release after a failure. */
  lemma FailureOwn(sch: Schema, sid: nat, x: Slot, h: Heap, rest: multiset<nat>)
    requires WfSchema(sch) && sid < |sch| && SoundStruct(sch, sid, x)
    requires Balanced(h, rest + IdsStruct(Stored, sch, sid, x))
    ensures var r := ReleaseStruct(sch, sid, x, h);
            && r.slot.Sub? && EmptyStruct(sch, sid, r.slot.members)
            && Owned(sch, sid, r.slot.members, r.heap, rest + LostRelease(sch, sid, x, h))
  {
    var r := ReleaseStruct(sch, sid, x, h);
    BalancedIsBounded(h, rest + IdsStruct(Stored, sch, sid, x));
    ReleaseStructEmpty(sch, sid, x, h);
    EmptyIsSound(sch, sid, r.slot.members);
    hide Balanced, Bounded, IdsFields, ReleaseStruct, SoundStruct, EmptyStruct;
    ReachedFields(sch, sid, x, |sch[sid]|);
    var stored, reached := IdsStruct(Stored, sch, sid, x), IdsStruct(Reached, sch, sid, x);
    assert rest + stored == (rest + (stored - reached)) + reached;
    ReleaseStructOwn(sch, sid, x, h, rest + (stored - reached));
    var kept := IdsStruct(Stored, sch, sid, r.slot);
    assert rest + (stored - reached) == (rest + LostRelease(sch, sid, x, h)) + kept;
  }

  /** `pb_decode` into a laid out struct. Afterwards the live blocks are those the struct
      stores and those that were lost; after a failure nothing in it can be released
      and pointers are null. */
  lemma {:induction false} DecodeOwn(sch: Schema, sid: nat, s: seq<Byte>, m: Store, h: Heap, rest: multiset<nat>)
    requires WfSchema(sch) && sid < |sch| && LaidOut(sch, sid, m) && Balanced(h, rest + Lasting(sch, sid, m))
    ensures var o := D.Decode(sch, sid, s, m, h);
            && Owned(sch, sid, o.store, o.heap, rest + LostDecode(sch, sid, s, m, h))
            && (!o.ok ==> EmptyStruct(sch, sid, o.store))
    decreases |s|, 10
  {
    hide Balanced, LostNoInit, EmptyStruct, D.DecodeNoInit, LostRelease;
    var m0 := Initialised(sch, sid, m);
    DefaultsSound(sch, sid, m);
    NoInitOwn(sch, sid, s, m0, h, rest);
    var o := D.DecodeNoInit(sch, sid, s, m0, h);
    var lost := LostNoInit(sch, sid, s, m0, h);
    AddNothing(lost);
    if !o.ok {
      FailureOwn(sch, sid, Sub(o.store), o.heap, rest + lost);
      Regroup(rest, lost, LostRelease(sch, sid, Sub(o.store), o.heap));
    }
  }

  /** The account is that of the struct alone exactly when nothing was lost. */
  lemma OwnedExactly(sch: Schema, sid: nat, s: seq<Byte>, m: Store, h: Heap, rest: multiset<nat>)
    requires WfSchema(sch) && sid < |sch| && LaidOut(sch, sid, m) && Balanced(h, rest + Lasting(sch, sid, m))
    ensures var o := D.Decode(sch, sid, s, m, h);
            Owned(sch, sid, o.store, o.heap, rest) <==> LostDecode(sch, sid, s, m, h) == multiset{}
  {
    hide Balanced, D.Decode, LostDecode, SoundStruct, IdsFields, LaidOut, LastingFields, EmptyStruct;
    DecodeOwn(sch, sid, s, m, h, rest);
    var o := D.Decode(sch, sid, s, m, h);
    var lost, ids := LostDecode(sch, sid, s, m, h), IdsStruct(Stored, sch, sid, Sub(o.store));
    Exchange(rest, lost, ids);
    OneAccount(o.heap, rest + ids, lost);
  }

  /** A whole life: decoding, and releasing the struct afterwards, leaves the live blocks
      of before exactly when the decode lost nothing and no block of the struct was
      past the count of its array. Nothing is ever freed twice. */
  lemma DecodeThenRelease(sch: Schema, sid: nat, s: seq<Byte>, m: Store, h: Heap, rest: multiset<nat>)
    requires WfSchema(sch) && sid < |sch| && LaidOut(sch, sid, m) && Balanced(h, rest + Lasting(sch, sid, m))
    ensures var o := D.Decode(sch, sid, s, m, h);
            var after := ReleaseStruct(sch, sid, Sub(o.store), o.heap).heap;
            var stored := IdsStruct(Stored, sch, sid, Sub(o.store));
            var reached := IdsStruct(Reached, sch, sid, Sub(o.store));
            && !after.fault && Balanced(after, rest + (LostDecode(sch, sid, s, m, h) + (stored - reached)))
            && (Balanced(after, rest) <==> LostDecode(sch, sid, s, m, h) == multiset{} && stored == reached)
  {
    hide D.Decode, LostDecode, SoundStruct, IdsFields, LaidOut, LastingFields, EmptyStruct, ReleaseStruct, Bounded;
    DecodeOwn(sch, sid, s, m, h, rest);
    var o := D.Decode(sch, sid, s, m, h);
    var after := ReleaseStruct(sch, sid, Sub(o.store), o.heap).heap;
    ReachedFields(sch, sid, Sub(o.store), |sch[sid]|);
    var lost := LostDecode(sch, sid, s, m, h);
    var stored, reached := IdsStruct(Stored, sch, sid, Sub(o.store)), IdsStruct(Reached, sch, sid, Sub(o.store));
    BalancedIsBounded(o.heap, rest + lost + stored);
    ReleaseStructOwn(sch, sid, Sub(o.store), o.heap, rest + (lost + (stored - reached)));
    LeftOver(rest, lost, stored, reached);
    OneAccount(after, rest, lost + (stored - reached));
  }

  lemma LeftOver(rest: multiset<nat>, lost: multiset<nat>, stored: multiset<nat>, reached: multiset<nat>)
    requires reached <= stored
    ensures rest + (lost + (stored - reached)) + reached == rest + lost + stored
    ensures lost + (stored - reached) == multiset{} <==> lost == multiset{} && stored == reached
  {
    if lost + (stored - reached) == multiset{} {
      assert stored == (stored - reached) + reached;
      forall x: nat ensures lost[x] == 0 && (stored - reached)[x] == 0 {
        assert (lost + (stored - reached))[x] == 0;
      }
    }
  }
}
