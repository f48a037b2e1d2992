/** The size of every block: what the decoders write to the heap lies within the bytes
    they were granted. */
module BlockRoom {
  import opened Bits
  import opened Varint
  import opened Descriptor
  import opened FieldIterator
  import opened Scalars
  import opened Defaults
  import opened Allocator
  import opened Release
  import D = DecodeSpec
  import DecodeOwnership

  /** How many bytes each block was granted. */
  type Sizes = map<nat, nat>

  /** The block of `x`, if it has one, was granted at least `n` bytes. */
  predicate Holds(m: Sizes, x: Slot, n: int) {
    x.Block? ==> x.id in m && n <= m[x.id]
  }

  /** What a string or bytes array takes besides its bytes: the terminator, or the size
      member of pb_bytes_array_t. */
  function Extra(f: Field): nat {
    if f.ltype.String? then 1 else 4
  }

  predicate RoomBuffer(m: Sizes, f: Field, x: Slot) {
    Holds(m, x, if x.Block? && x.cells != [] && x.cells[0].Buf? then |x.cells[0].bytes| + Extra(f) else 0)
  }

  predicate RoomDest(m: Sizes, sch: Schema, f: Field, x: Slot)
    requires WfSchema(sch) && KnownRef(sch, f)
    decreases x, 1
  {
    if OwnBuffer(f) then RoomBuffer(m, f, x)
    else f.ltype.SubMessage? && f.ptr.Fields? ==> RoomStruct(m, sch, f.ptr.id, x)
  }

  predicate RoomEntries(m: Sizes, sch: Schema, f: Field, cells: seq<Slot>, n: int)
    requires WfSchema(sch) && KnownRef(sch, f)
    decreases cells, 0
  {
    forall k :: 0 <= k < n && k < |cells| ==> RoomDest(m, sch, f, cells[k])
  }

  /** The blocks of a field have room for what is in them: `n` entries of `dataSize` bytes
      in an array of `n`, one in the block of a single item. */
  predicate RoomCell(m: Sizes, sch: Schema, f: Field, data: Slot, size: Slot)
    requires WfSchema(sch) && KnownRef(sch, f)
    decreases data, 2
  {
    if Inactive(f, size) then true
    else if f.atype.Static? then
      if !f.htype.Repeated? then RoomDest(m, sch, f, data)
      else match data
        case Arr(items) => |items| == f.arraySize && 0 <= Number(size) && RoomEntries(m, sch, f, items, |items|)
        case _ => false
    else if !f.htype.Repeated? && OwnBuffer(f) then RoomBuffer(m, f, data)
    else
      var n := if f.htype.Repeated? then Number(size) else 1;
      match data
      case Nil => f.htype.Repeated? ==> n == 0
      case Block(_, cells) =>
        && 0 <= n <= |cells| && n <= PB_SIZE_MAX
        && Holds(m, data, n * f.dataSize) && RoomEntries(m, sch, f, cells, n)
      case _ => false
  }

  predicate RoomField(m: Sizes, sch: Schema, sid: nat, x: Slot, i: nat)
    requires WfSchema(sch) && sid < |sch| && i < |sch[sid]|
    decreases x, 0, i
  {
    assert WfMessage(sch, sid) && OkField(sch, sid, i);
    && x.Sub? && DataAt(sch[sid], i) in x.members
    && RoomCell(m, sch, sch[sid][i], x.members[DataAt(sch[sid], i)], CellOf(sch[sid], x.members, i).size)
  }

  /** Every block the struct points to, at any depth, has room for what is in it. */
  predicate RoomStruct(m: Sizes, sch: Schema, sid: nat, x: Slot)
    requires WfSchema(sch) && sid < |sch|
    decreases x, 0, |sch[sid]|
  {
    x.Sub? && forall i {:trigger RoomField(m, sch, sid, x, i)} :: 0 <= i < |sch[sid]| ==> RoomField(m, sch, sid, x, i)
  }

  // -------------------------------------------------------------- more blocks

  /** Names that are still to be given have no size, and sizes do not change. */
  ghost predicate Later(h: Heap, g: Heap) {
    && h.next <= g.next && (forall id {:trigger id in g.bytes} :: id in g.bytes ==> id < g.next)
    && forall id {:trigger id in h.bytes} :: id in h.bytes ==> id in g.bytes && g.bytes[id] == h.bytes[id]
  }

  ghost predicate Named(h: Heap) {
    forall id {:trigger id in h.bytes} :: id in h.bytes ==> id < h.next
  }

  lemma LaterThen(a: Heap, b: Heap, c: Heap)
    requires Later(a, b) && Later(b, c)
    ensures Later(a, c)
  {
  }

  ghost predicate Kept(m: Sizes, n: Sizes) {
    forall id {:trigger id in m} :: id in m ==> id in n && n[id] == m[id]
  }

  lemma {:induction false} KeptDest(m: Sizes, n: Sizes, sch: Schema, f: Field, x: Slot)
    requires WfSchema(sch) && KnownRef(sch, f) && Kept(m, n) && RoomDest(m, sch, f, x)
    ensures RoomDest(n, sch, f, x)
    decreases x, 1
  {
    if !OwnBuffer(f) && f.ltype.SubMessage? && f.ptr.Fields? {
      KeptStruct(m, n, sch, f.ptr.id, x);
    }
  }

  lemma {:induction false} KeptEntries(m: Sizes, n: Sizes, sch: Schema, f: Field, cells: seq<Slot>, k: int)
    requires WfSchema(sch) && KnownRef(sch, f) && Kept(m, n) && RoomEntries(m, sch, f, cells, k)
    ensures RoomEntries(n, sch, f, cells, k)
    decreases cells, 0
  {
    hide RoomDest;
    forall j | 0 <= j < k && j < |cells| ensures RoomDest(n, sch, f, cells[j]) {
      KeptDest(m, n, sch, f, cells[j]);
    }
  }

  lemma {:induction false} KeptCell(m: Sizes, n: Sizes, sch: Schema, f: Field, data: Slot, size: Slot)
    requires WfSchema(sch) && KnownRef(sch, f) && Kept(m, n) && RoomCell(m, sch, f, data, size)
    ensures RoomCell(n, sch, f, data, size)
    decreases data, 2
  {
    hide RoomDest, RoomEntries;
    if !Inactive(f, size) {
      if f.atype.Static? && !f.htype.Repeated? {
        KeptDest(m, n, sch, f, data);
      } else if data.Arr? && f.atype.Static? {
        KeptEntries(m, n, sch, f, data.items, |data.items|);
      } else if data.Block? && !(f.atype.Static? || (!f.htype.Repeated? && OwnBuffer(f))) {
        KeptEntries(m, n, sch, f, data.cells, if f.htype.Repeated? then Number(size) else 1);
      }
    }
  }

  /** More blocks do not take room from the others. */
  lemma {:induction false} KeptStruct(m: Sizes, n: Sizes, sch: Schema, sid: nat, x: Slot)
    requires WfSchema(sch) && sid < |sch| && Kept(m, n) && RoomStruct(m, sch, sid, x)
    ensures RoomStruct(n, sch, sid, x)
    decreases x, 0, |sch[sid]|
  {
    hide RoomCell;
    forall i | 0 <= i < |sch[sid]| ensures RoomField(n, sch, sid, x, i) {
      assert RoomField(m, sch, sid, x, i);
      assert WfMessage(sch, sid) && OkField(sch, sid, i);
      KeptCell(m, n, sch, sch[sid][i], x.members[DataAt(sch[sid], i)], CellOf(sch[sid], x.members, i).size);
    }
  }

  // --------------------------------------------------------------- allocation

  /** A granted block has room for its entries, and no other block changes. */
  lemma AllocateRoom(h: Heap, was: Slot, dataSize: nat, n: nat)
    requires Named(h)
    ensures var a := AllocateField(h, was, dataSize, n);
            && Named(a.heap) && Later(h, a.heap)
            && (a.ok ==>
                  && a.slot.Block? && |a.slot.cells| == n && n > 0 && Holds(a.heap.bytes, a.slot, n * dataSize)
                  && forall k :: 0 <= k < n && k < |Items(was)| ==> a.slot.cells[k] == Items(was)[k])
            && (!a.ok ==> a.slot == was)
  {
    hide AllocateField;
    AllocateExactly(h, was, dataSize, n);
    var a := AllocateField(h, was, dataSize, n);
    if a.ok {
      AllocateNext(h, was, dataSize, n);
    }
  }

  lemma AllocateNext(h: Heap, was: Slot, dataSize: nat, n: nat)
    ensures AllocateField(h, was, dataSize, n).ok ==> AllocateField(h, was, dataSize, n).heap.next == h.next + 1
  {
    hide RejectsSize, Resize;
  }

  /** When entry `count` of a heap array is written by the packed loop, its block has been
      granted room for it, whether the block has grown for it or not. */
  lemma MakeRoomRoom(f: Field, left: nat, data: Slot, count: nat, room: nat, h: Heap)
    requires left > 0 && f.dataSize > 0 && DecodeOwnership.Room(data, count, room) && count < PB_SIZE_MAX
    requires Named(h) && Holds(h.bytes, data, room * f.dataSize)
    ensures var a := D.MakeRoom(f, left, data, count, room, h);
            var now := D.RoomFor(left, f.dataSize, count, room);
            && Named(a.heap) && Later(h, a.heap)
            && (a.ok ==>
                  && a.slot.Block? && DecodeOwnership.Room(a.slot, count + 1, now)
                  && Holds(a.heap.bytes, a.slot, now * f.dataSize)
                  && Holds(a.heap.bytes, a.slot, (count + 1) * f.dataSize))
            && (!a.ok ==> a.slot == data)
  {
    hide AllocateField;
    if count + 1 > room {
      DecodeOwnership.GrownRoom(left, f.dataSize, count, room);
      AllocateRoom(h, data, f.dataSize, D.Grown(left, f.dataSize, room));
    }
    var now := D.RoomFor(left, f.dataSize, count, room);
    if D.MakeRoom(f, left, data, count, room, h).ok {
      MulLe(f.dataSize, count + 1, now);
    }
  }

  /** The packed loop: whatever its outcome, what it has stored has room. */
  lemma {:induction false} GrowRoom(f: Field, s: seq<Byte>, data: Slot, count: nat, room: nat, h: Heap)
    requires f.dataSize > 0 && DecodeOwnership.Room(data, count, room) && Named(h)
    requires Holds(h.bytes, data, room * f.dataSize)
    ensures var g := D.GrowItems(f, s, data, count, room, h);
            && Named(g.heap) && Later(h, g.heap) && g.count <= |Items(g.data)| && (g.data.Nil? || g.data.Block?)
            && Holds(g.heap.bytes, g.data, g.count * f.dataSize)
    decreases |s|
  {
    hide D.MakeRoom, D.RoomFor, DecScalar, ItemAt;
    MulLe(f.dataSize, count, room);
    if s == [] || count >= PB_SIZE_MAX {
    } else {
      var room1 := D.RoomFor(|s|, f.dataSize, count, room);
      MakeRoomRoom(f, |s|, data, count, room, h);
      var a := D.MakeRoom(f, |s|, data, count, room, h);
      if a.ok {
        MulLe(f.dataSize, count, room1);
        var d := DecScalar(f, s, ItemAt(Items(a.slot), count));
        if d.ok {
          GrowRoom(f, d.rest, D.WithItem(a.slot, count, d.slot), count + 1, room1, a.heap);
          LaterThen(h, a.heap, D.GrowItems(f, s, data, count, room, h).heap);
        }
      }
    }
  }

  // ------------------------------------------------------------------ release

  /** Blocks that are freed keep the size on record, and requests are granted as before. */
  ghost predicate SameSizes(h: Heap, g: Heap) {
    g.bytes == h.bytes && g.next == h.next && g.grant == h.grant
  }

  lemma {:induction false} FreeItemsSizes(items: seq<Slot>, n: int, h: Heap)
    ensures SameSizes(h, FreeItems(items, n, h).heap)
    decreases |items|
  {
    if n <= 0 || items == [] {
    } else {
      FreeItemsSizes(items[1..], n - 1, Free(h, items[0]));
    }
  }

  lemma {:induction false} ReleaseItemsSizes(sch: Schema, id: nat, items: seq<Slot>, n: int, h: Heap)
    requires WfSchema(sch) && id < |sch|
    ensures SameSizes(h, ReleaseItems(sch, id, items, n, h).heap)
    decreases items
  {
    if n <= 0 || items == [] {
    } else {
      ReleaseStructSizes(sch, id, items[0], h);
      ReleaseItemsSizes(sch, id, items[1..], n - 1, ReleaseStruct(sch, id, items[0], h).heap);
    }
  }

  lemma {:induction false} ReleaseCellSizes(sch: Schema, f: Field, data: Slot, size: Slot, h: Heap)
    requires WfSchema(sch) && KnownRef(sch, f)
    ensures SameSizes(h, ReleaseCell(sch, f, data, size, h).heap)
    decreases data, 3
  {
    hide ReleaseSubs, FreeItems;
    ReleaseSubsSizes(sch, f, data, size, h);
    var subs := if f.ltype.SubMessage? then ReleaseSubs(sch, f, data, size, h) else SlotHeap(data, h);
    FreeItemsSizes(Items(subs.slot), Number(size), subs.heap);
  }

  lemma {:induction false} ReleaseSubsSizes(sch: Schema, f: Field, data: Slot, size: Slot, h: Heap)
    requires WfSchema(sch) && KnownRef(sch, f)
    ensures SameSizes(h, ReleaseSubs(sch, f, data, size, h).heap)
    decreases data, 2
  {
    hide ReleaseItems, ReleaseStruct;
    if f.ptr.Fields? {
      match data
      case Sub(_) => ReleaseStructSizes(sch, f.ptr.id, data, h);
      case Arr(items) => ReleaseItemsSizes(sch, f.ptr.id, items, SubCount(f, size), h);
      case Block(_, cells) => ReleaseItemsSizes(sch, f.ptr.id, cells, SubCount(f, size), h);
      case _ =>
    }
  }

  lemma {:induction false} ReleaseFieldsSizes(sch: Schema, sid: nat, src: Slot, h: Heap, n: nat)
    requires WfSchema(sch) && sid < |sch| && n <= |sch[sid]|
    ensures SameSizes(h, ReleaseFields(sch, sid, src, h, n).heap)
    decreases src, 0, n
  {
    hide ReleaseCell;
    if n == 0 {
    } else {
      ReleaseFieldsSizes(sch, sid, src, h, n - 1);
      assert WfMessage(sch, sid) && OkField(sch, sid, n - 1);
      if src.Sub? && DataAt(sch[sid], n - 1) in src.members {
        ReleaseCellSizes(sch, sch[sid][n - 1], src.members[DataAt(sch[sid], n - 1)],
                         CellOf(sch[sid], Members(src), n - 1).size, ReleaseFields(sch, sid, src, h, n - 1).heap);
      }
    }
  }

  lemma {:induction false} ReleaseStructSizes(sch: Schema, sid: nat, src: Slot, h: Heap)
    requires WfSchema(sch) && sid < |sch|
    ensures SameSizes(h, ReleaseStruct(sch, sid, src, h).heap)
    decreases src, 1
  {
    ReleaseFieldsSizes(sch, sid, src, h, |sch[sid]|);
  }

  // ------------------------------------------------------------------ structs

  /** A written cell has room, and no other member of its union becomes current. */
  predicate RoomWrite(m: Sizes, sch: Schema, sid: nat, i: nat, c: Cell)
    requires WfSchema(sch) && sid < |sch| && i < |sch[sid]|
  {
    assert WfMessage(sch, sid) && OkField(sch, sid, i);
    && RoomCell(m, sch, sch[sid][i], c.data, NormalCell(sch[sid][i], c).size)
    && (sch[sid][i].htype.OneOf? ==> c.size == Num(0) || c.size == Num(sch[sid][i].tag))
  }

  lemma FirstWrite(m: Sizes, sch: Schema, sid: nat, s: Store, i: nat, c: Cell)
    requires WfSchema(sch) && sid < |sch| && i < |sch[sid]| && RoomWrite(m, sch, sid, i, c)
    ensures RoomField(m, sch, sid, Sub(PutCell(sch[sid], s, i, c)), i)
  {
    hide RoomCell;
    assert WfMessage(sch, sid);
    PutThenGet(sch, sid, s, i, c);
  }

  lemma PutRoomField(m: Sizes, sch: Schema, sid: nat, s: Store, i: nat, c: Cell, k: nat)
    requires WfSchema(sch) && sid < |sch| && i < |sch[sid]| && k < |sch[sid]|
    requires RoomField(m, sch, sid, Sub(s), k) && RoomWrite(m, sch, sid, i, c)
    ensures RoomField(m, sch, sid, Sub(PutCell(sch[sid], s, i, c)), k)
  {
    hide RoomDest, RoomEntries, Holds, WfTable;
    var fs := sch[sid];
    assert WfMessage(sch, sid) && OkField(sch, sid, k);
    if k == i {
      FirstWrite(m, sch, sid, s, i, c);
    } else if UnionHead(fs, k) == UnionHead(fs, i) {
      PutRoomSibling(m, sch, sid, s, i, c, k);
    } else {
      PutElsewhere(sch, sid, s, i, c, k);
      NoNewKey(sch, sid, s, i, c, k);
    }
  }

  lemma PutRoomSibling(m: Sizes, sch: Schema, sid: nat, s: Store, i: nat, c: Cell, k: nat)
    requires WfSchema(sch) && sid < |sch| && i < |sch[sid]| && k < |sch[sid]| && k != i
    requires UnionHead(sch[sid], k) == UnionHead(sch[sid], i) && RoomWrite(m, sch, sid, i, c)
    ensures RoomField(m, sch, sid, Sub(PutCell(sch[sid], s, i, c)), k)
  {
    hide RoomDest, RoomEntries, Holds, WfTable;
    var fs, s1 := sch[sid], PutCell(sch[sid], s, i, c);
    assert WfMessage(sch, sid) && OkField(sch, sid, i) && OkField(sch, sid, k);
    PutThenGet(sch, sid, s, i, c);
    SameUnionData(fs, k, i);
    UnionCell(sch, sid, s1, k, i);
    OneOfHead(fs, k, i);
    OtherTag(sch, sid, i, k);
    assert Inactive(fs[k], CellOf(fs, s1, k).size);
  }

  lemma OtherTag(sch: Schema, sid: nat, i: nat, k: nat)
    requires WfSchema(sch) && sid < |sch| && i < |sch[sid]| && k < |sch[sid]| && i != k
    ensures sch[sid][i].tag != sch[sid][k].tag && sch[sid][k].tag != 0
  {
    assert WfMessage(sch, sid) && TagsDiffer(sch[sid], if i < k then i else k, if i < k then k else i);
    assert OkField(sch, sid, k);
  }

  lemma NoNewKey(sch: Schema, sid: nat, s: Store, i: nat, c: Cell, k: nat)
    requires WfSchema(sch) && sid < |sch| && i < |sch[sid]| && k < |sch[sid]|
    requires UnionHead(sch[sid], k) != UnionHead(sch[sid], i)
    ensures DataAt(sch[sid], k) in PutCell(sch[sid], s, i, c) <==> DataAt(sch[sid], k) in s
    ensures DataAt(sch[sid], k) in s ==>
              PutCell(sch[sid], s, i, c)[DataAt(sch[sid], k)] == s[DataAt(sch[sid], k)]
  {
    assert WfMessage(sch, sid);
    DisjointStorage(sch, sid, i, k);
  }

  lemma PutRoom(m: Sizes, sch: Schema, sid: nat, s: Store, i: nat, c: Cell)
    requires WfSchema(sch) && sid < |sch| && i < |sch[sid]|
    requires RoomStruct(m, sch, sid, Sub(s)) && RoomWrite(m, sch, sid, i, c)
    ensures RoomStruct(m, sch, sid, Sub(PutCell(sch[sid], s, i, c)))
  {
    hide RoomField, RoomWrite, PutCell;
    forall k | 0 <= k < |sch[sid]| ensures RoomField(m, sch, sid, Sub(PutCell(sch[sid], s, i, c)), k) {
      assert RoomField(m, sch, sid, Sub(s), k);
      PutRoomField(m, sch, sid, s, i, c, k);
    }
  }

  // ----------------------------------------------------------------- defaults

  lemma {:induction false} ZeroFieldRoom(m: Sizes, sch: Schema, sid: nat, n: nat, i: nat)
    requires WfSchema(sch) && sid < |sch| && i < n <= |sch[sid]|
    ensures RoomField(m, sch, sid, Sub(ZeroStruct(sch, sid, n)), i)
    decreases sid, 2, n
  {
    hide RoomWrite, PutCell, RoomField;
    var j, s := n - 1, ZeroStruct(sch, sid, n - 1);
    ZeroCellRoom(m, sch, sid, j);
    if i == j {
      FirstWrite(m, sch, sid, s, j, ZeroCell(sch, sid, j));
    } else {
      ZeroFieldRoom(m, sch, sid, j, i);
      PutRoomField(m, sch, sid, s, j, ZeroCell(sch, sid, j), i);
    }
  }

  lemma {:induction false} ZeroRoom(m: Sizes, sch: Schema, sid: nat)
    requires WfSchema(sch) && sid < |sch|
    ensures RoomStruct(m, sch, sid, Sub(ZeroStruct(sch, sid, |sch[sid]|)))
    decreases sid, 3, 0
  {
    var n := |sch[sid]|;
    forall i | 0 <= i < n ensures RoomField(m, sch, sid, Sub(ZeroStruct(sch, sid, n)), i) {
      ZeroFieldRoom(m, sch, sid, n, i);
    }
  }

  lemma {:induction false} ZeroCellRoom(m: Sizes, sch: Schema, sid: nat, i: nat)
    requires WfSchema(sch) && sid < |sch| && i < |sch[sid]|
    ensures RoomWrite(m, sch, sid, i, ZeroCell(sch, sid, i))
    decreases sid, 1, 0
  {
    assert WfMessage(sch, sid) && OkField(sch, sid, i);
    var f := sch[sid][i];
    if f.atype.Static? && f.ltype.SubMessage? {
      ZeroRoom(m, sch, f.ptr.id);
      assert RoomDest(m, sch, f, ZeroItem(sch, sid, i));
    }
  }

  lemma {:induction false} DefaultsRoom(m: Sizes, sch: Schema, sid: nat, s: Store, n: nat)
    requires WfSchema(sch) && sid < |sch| && n <= |sch[sid]| && RoomStruct(m, sch, sid, Sub(s))
    ensures RoomStruct(m, sch, sid, Sub(SetDefaults(sch, sid, s, n)))
    decreases sid, 1, n
  {
    hide RoomWrite, PutCell, DefaultCell, RoomField;
    if n == 0 {
    } else {
      DefaultsRoom(m, sch, sid, s, n - 1);
      var s1 := SetDefaults(sch, sid, s, n - 1);
      assert RoomField(m, sch, sid, Sub(s1), n - 1);
      DefaultCellRoom(m, sch, sid, s1, n - 1);
      PutRoom(m, sch, sid, s1, n - 1, DefaultCell(sch, sid, n - 1, CellOf(sch[sid], s1, n - 1)));
    }
  }

  lemma {:induction false} DefaultCellRoom(m: Sizes, sch: Schema, sid: nat, s: Store, i: nat)
    requires WfSchema(sch) && sid < |sch| && i < |sch[sid]| && RoomField(m, sch, sid, Sub(s), i)
    ensures RoomWrite(m, sch, sid, i, DefaultCell(sch, sid, i, CellOf(sch[sid], s, i)))
    decreases sid, 0, 0
  {
    var f, c := sch[sid][i], CellOf(sch[sid], s, i);
    assert WfMessage(sch, sid) && OkField(sch, sid, i);
    if f.atype.Static? && (f.htype.Required? || f.htype.Optional?) && f.ltype.SubMessage? {
      var sub := Members(c.data);
      assert RoomDest(m, sch, f, c.data);
      RoomIsStruct(m, sch, f.ptr.id, c.data);
      DefaultsRoom(m, sch, f.ptr.id, sub, |sch[f.ptr.id]|);
      assert DefaultCell(sch, sid, i, c).data == Sub(SetDefaults(sch, f.ptr.id, sub, |sch[f.ptr.id]|));
      assert RoomDest(m, sch, f, DefaultCell(sch, sid, i, c).data);
    }
  }

  lemma FreshRoom(m: Sizes, sch: Schema, sid: nat)
    requires WfSchema(sch) && sid < |sch|
    ensures RoomStruct(m, sch, sid, FreshStruct(sch, sid))
  {
    ZeroRoom(m, sch, sid);
    DefaultsRoom(m, sch, sid, ZeroStruct(sch, sid, |sch[sid]|), |sch[sid]|);
  }

  // ----------------------------------------------------------------- one value

  /** A string of `n` bytes gets a block of `n + 1`, a bytes array one of `n + 4`. */
  lemma BufferRoom(f: Field, s: seq<Byte>, dest: Slot, h: Heap)
    requires OwnBuffer(f) && Named(h)
    ensures var v := D.DecBuffer(f, s, dest, h);
            && Named(v.heap) && Later(h, v.heap)
            && (v.ok ==>
                  && v.slot.Block? && |v.slot.cells| == 1 && v.slot.cells[0].Buf?
                  && Holds(v.heap.bytes, v.slot, |v.slot.cells[0].bytes| + if f.ltype.String? then 1 else 4))
  {
    hide Varint32, AllocateField;
    Varint32Bound(s);
    if Varint32(s).Got? {
      var n := Varint32(s).value;
      var capacity := if f.ltype.Bytes? then BYTES_HEADER + n else U32(n + 1);
      U32Small(n + 1);
      assert n + 1 == TWO32 ==> U32(n + 1) == 0;
      AllocateRoom(h, dest, capacity, 1);
    }
  }

  lemma {:induction false} ValueRoom(sch: Schema, f: Field, s: seq<Byte>, dest: Slot, h: Heap)
    requires WfSchema(sch) && KnownRef(sch, f) && (f.ltype.SubMessage? <==> f.ptr.Fields?)
    requires Named(h) && RoomDest(h.bytes, sch, f, dest)
    ensures var v := D.DecValue(sch, f, s, dest, h);
            v.ok ==> Named(v.heap) && Later(h, v.heap) && RoomDest(v.heap.bytes, sch, f, v.slot)
    decreases |s|, 2
  {
    hide DecScalar, D.DecFixedBytes, D.Decode, D.DecodeNoInit, Named, Later, RoomStruct;
    if f.ltype.SubMessage? {
      assert D.DecValue(sch, f, s, dest, h) == D.DecSub(sch, f, s, dest, h);
      if D.Delimited(s).Chunk? {
        var body := D.Delimited(s).body;
        assert dest == Sub(Members(dest)) by { RoomIsStruct(h.bytes, sch, f.ptr.id, dest); }
        if f.htype.Repeated? {
          DecodeRoom(sch, f.ptr.id, body, Members(dest), h);
        } else {
          NoInitRoom(sch, f.ptr.id, body, Members(dest), h);
        }
      }
    } else if OwnBuffer(f) {
      BufferRoom(f, s, dest, h);
    } else {
      PlainRoom(sch, f, s, dest, h);
    }
  }

  lemma RoomIsStruct(m: Sizes, sch: Schema, sid: nat, x: Slot)
    requires WfSchema(sch) && sid < |sch| && RoomStruct(m, sch, sid, x)
    ensures x.Sub?
  {
  }

  lemma PlainRoom(sch: Schema, f: Field, s: seq<Byte>, dest: Slot, h: Heap)
    requires WfSchema(sch) && KnownRef(sch, f) && !f.ltype.SubMessage? && !OwnBuffer(f) && Named(h)
    ensures var v := D.DecValue(sch, f, s, dest, h);
            Named(v.heap) && Later(h, v.heap) && RoomDest(v.heap.bytes, sch, f, v.slot)
  {
    hide DecScalar, Varint32;
  }

  // ----------------------------------------------------------------- one field

  /** A static array of submessages: the element, and the entries that stay. */
  lemma {:induction false} ElementRoom(sch: Schema, f: Field, s: seq<Byte>, c: Cell, h: Heap)
    requires WfSchema(sch) && KnownRef(sch, f) && (f.ltype.SubMessage? <==> f.ptr.Fields?)
    requires f.atype.Static? && f.htype.Repeated? && Named(h) && RoomCell(h.bytes, sch, f, c.data, c.size)
    ensures var o := D.StaticSingle(sch, f, s, c, h);
            o.ok ==> Named(o.heap) && Later(h, o.heap) && RoomCell(o.heap.bytes, sch, f, o.cell.data, o.cell.size)
    decreases |s|, 3
  {
    hide D.DecValue, RoomDest, Named;
    var k, xs := Number(c.size), Items(c.data);
    var o := D.StaticSingle(sch, f, s, c, h);
    if o.ok {
      ItemRoom(h.bytes, sch, f, c, k);
      ValueRoom(sch, f, s, xs[k], h);
      KeptEntries(h.bytes, o.heap.bytes, sch, f, xs, |xs|);
    }
  }

  lemma ItemRoom(m: Sizes, sch: Schema, f: Field, c: Cell, k: int)
    requires WfSchema(sch) && KnownRef(sch, f) && f.atype.Static? && f.htype.Repeated?
    requires RoomCell(m, sch, f, c.data, c.size) && 0 <= k < f.arraySize
    ensures k < |Items(c.data)| && RoomDest(m, sch, f, Items(c.data)[k])
  {
    hide RoomDest;
  }

  lemma PlainEntries(m: Sizes, sch: Schema, f: Field, cells: seq<Slot>, n: int)
    requires WfSchema(sch) && KnownRef(sch, f) && !OwnBuffer(f) && !f.ltype.SubMessage?
    ensures RoomEntries(m, sch, f, cells, n)
  {
  }

  lemma PackedStaticRoom(m: Sizes, sch: Schema, f: Field, s: seq<Byte>, c: Cell, h: Heap)
    requires WfSchema(sch) && KnownRef(sch, f) && (f.ltype.SubMessage? <==> f.ptr.Fields?)
    requires f.atype.Static? && f.htype.Repeated? && Packable(f.ltype) && RoomCell(m, sch, f, c.data, c.size)
    ensures var o := D.StaticPacked(f, s, c, h);
            o.heap == h && (o.ok ==> RoomCell(m, sch, f, o.cell.data, o.cell.size))
  {
    hide D.PackedItems, RoomEntries;
    var o := D.StaticPacked(f, s, c, h);
    if D.Delimited(s).Chunk? {
      PackedSizes(f, D.Delimited(s).body, Items(c.data), Number(c.size));
      PlainEntries(m, sch, f, Items(o.cell.data), |Items(o.cell.data)|);
    }
  }

  lemma {:induction false} PackedSizes(f: Field, s: seq<Byte>, items: seq<Slot>, count: nat)
    ensures var p := D.PackedItems(f, s, items, count); |p.items| == |items| && 0 <= p.count
    decreases |s|
  {
    hide DecScalar;
    if s == [] || count >= f.arraySize {
    } else {
      var d := DecScalar(f, s, ItemAt(items, count));
      if d.ok {
        PackedSizes(f, d.rest, SetItem(items, count, d.slot), count + 1);
      }
    }
  }

  lemma {:induction false} StaticRoom(sch: Schema, f: Field, wire: nat, s: seq<Byte>, c: Cell, h: Heap)
    requires WfSchema(sch) && KnownRef(sch, f) && (f.ltype.SubMessage? <==> f.ptr.Fields?)
    requires f.atype.Static? && Named(h) && RoomCell(h.bytes, sch, f, c.data, c.size)
    ensures var o := D.StaticStep(sch, f, wire, s, c, h);
            o.ok ==>
              && Named(o.heap) && Later(h, o.heap) && RoomCell(o.heap.bytes, sch, f, o.cell.data, o.cell.size)
              && (f.htype.OneOf? ==> o.cell.size == Num(f.tag))
    decreases |s|, 4
  {
    hide D.DecValue, D.StaticSingle, D.StaticPacked, RoomDest;
    if f.htype.Repeated? {
      if wire == WT_STRING && Packable(f.ltype) {
        PackedStaticRoom(h.bytes, sch, f, s, c, h);
      } else {
        ElementRoom(sch, f, s, c, h);
      }
    } else {
      var anew := f.htype.OneOf? && f.ltype.SubMessage? && Number(c.size) != f.tag;
      var start := if anew then FreshStruct(sch, f.ptr.id) else c.data;
      StartRoom(h.bytes, sch, f, c, start);
      ValueRoom(sch, f, s, start, h);
    }
  }

  lemma StartRoom(m: Sizes, sch: Schema, f: Field, c: Cell, start: Slot)
    requires WfSchema(sch) && KnownRef(sch, f) && (f.ltype.SubMessage? <==> f.ptr.Fields?)
    requires f.atype.Static? && !f.htype.Repeated? && RoomCell(m, sch, f, c.data, c.size)
    requires start == if f.htype.OneOf? && f.ltype.SubMessage? && Number(c.size) != f.tag
                      then FreshStruct(sch, f.ptr.id) else c.data
    ensures RoomDest(m, sch, f, start)
  {
    if f.ltype.SubMessage? {
      FreshRoom(m, sch, f.ptr.id);
    }
  }

  lemma NewItemRoom(m: Sizes, sch: Schema, f: Field, was: Slot)
    requires WfSchema(sch) && KnownRef(sch, f) && (f.ltype.SubMessage? <==> f.ptr.Fields?)
    ensures RoomDest(m, sch, f, D.NewItem(sch, f, was)) || (!OwnBuffer(f) && !f.ltype.SubMessage?)
    ensures !OwnBuffer(f) && !f.ltype.SubMessage? ==> RoomDest(m, sch, f, D.NewItem(sch, f, was))
  {
    if f.ltype.SubMessage? {
      FreshRoom(m, sch, f.ptr.id);
    }
  }

  /** An element of a heap array: when entry `k` is decoded, the block has been granted
      room for `k + 1` entries. */
  lemma {:induction false} SingleRoom(sch: Schema, f: Field, s: seq<Byte>, c: Cell, h: Heap)
    requires WfSchema(sch) && KnownRef(sch, f) && (f.ltype.SubMessage? <==> f.ptr.Fields?)
    requires f.atype.Pointer? && f.htype.Repeated? && Named(h) && RoomCell(h.bytes, sch, f, c.data, c.size)
    ensures var k := Number(c.size);
            && 0 <= k
            && var a := AllocateField(h, c.data, f.dataSize, k + 1);
               a.ok ==> Holds(a.heap.bytes, a.slot, (k + 1) * f.dataSize)
    ensures var o := D.PointerSingle(sch, f, s, c, h);
            o.ok ==> Named(o.heap) && Later(h, o.heap) && RoomCell(o.heap.bytes, sch, f, o.cell.data, o.cell.size)
    decreases |s|, 4
  {
    hide D.DecValue, D.NewItem, RoomDest, AllocateField, Named, Later;
    var k := Number(c.size);
    SingleCell(h.bytes, sch, f, c);
    AllocateRoom(h, c.data, f.dataSize, k + 1);
    if k < PB_SIZE_MAX {
      var a := AllocateField(h, c.data, f.dataSize, k + 1);
      if a.ok {
        var item := D.NewItem(sch, f, ItemAt(Items(a.slot), k));
        NewItemRoom(a.heap.bytes, sch, f, ItemAt(Items(a.slot), k));
        ValueRoom(sch, f, s, item, a.heap);
        var v := D.DecValue(sch, f, s, item, a.heap);
        if v.ok {
          LastRoom(sch, f, Items(c.data), a.slot.cells, k, v.slot, h, a.heap, v.heap);
          LaterThen(h, a.heap, v.heap);
          BlockHolds(a.heap, v.heap, a.slot, (k + 1) * f.dataSize);
        }
      }
    }
  }

  lemma SingleCell(m: Sizes, sch: Schema, f: Field, c: Cell)
    requires WfSchema(sch) && KnownRef(sch, f) && f.atype.Pointer? && f.htype.Repeated?
    requires RoomCell(m, sch, f, c.data, c.size)
    ensures 0 <= Number(c.size) <= |Items(c.data)| && RoomEntries(m, sch, f, Items(c.data), Number(c.size))
  {
    hide RoomDest;
  }

  lemma BlockHolds(h: Heap, g: Heap, x: Slot, n: int)
    requires Later(h, g) && Holds(h.bytes, x, n)
    ensures Holds(g.bytes, x, n)
  {
  }

  lemma LastRoom(sch: Schema, f: Field, was: seq<Slot>, cells: seq<Slot>, k: nat, x: Slot, h: Heap, a: Heap, g: Heap)
    requires WfSchema(sch) && KnownRef(sch, f) && |cells| == k + 1 && Later(h, a) && Later(a, g)
    requires forall j :: 0 <= j < k && j < |was| ==> cells[j] == was[j]
    requires k <= |was| && RoomEntries(h.bytes, sch, f, was, k) && RoomDest(g.bytes, sch, f, x)
    ensures RoomEntries(g.bytes, sch, f, cells[k := x], k + 1)
  {
    LaterThen(h, a, g);
    KeptEntries(h.bytes, g.bytes, sch, f, was, k);
    hide RoomDest;
  }

  lemma PackedRoom(sch: Schema, f: Field, s: seq<Byte>, c: Cell, h: Heap)
    requires WfSchema(sch) && KnownRef(sch, f) && (f.ltype.SubMessage? <==> f.ptr.Fields?) && f.dataSize > 0
    requires f.atype.Pointer? && f.htype.Repeated? && Packable(f.ltype) && Named(h)
    requires RoomCell(h.bytes, sch, f, c.data, c.size)
    ensures var o := D.PointerPacked(f, s, c, h);
            o.ok ==> Named(o.heap) && Later(h, o.heap) && RoomCell(o.heap.bytes, sch, f, o.cell.data, o.cell.size)
  {
    hide D.GrowItems, Named, Later, RoomEntries, D.Delimited;
    var k := Number(c.size);
    if D.Delimited(s).Chunk? {
      var body := D.Delimited(s).body;
      GrowRoom(f, body, c.data, k, k, h);
      var g := D.GrowItems(f, body, c.data, k, k, h);
      GrownCount(f, body, c.data, k, k, h);
      PlainEntries(g.heap.bytes, sch, f, Items(g.data), g.count);
    }
  }

  lemma {:induction false} GrownCount(f: Field, s: seq<Byte>, data: Slot, count: nat, room: nat, h: Heap)
    requires f.dataSize > 0 && count <= PB_SIZE_MAX
    ensures D.GrowItems(f, s, data, count, room, h).count <= PB_SIZE_MAX
    decreases |s|
  {
    hide D.MakeRoom, D.RoomFor, DecScalar;
    if s == [] || count == PB_SIZE_MAX {
    } else {
      var a := D.MakeRoom(f, |s|, data, count, room, h);
      var d := DecScalar(f, s, ItemAt(Items(a.slot), count));
      if a.ok && d.ok {
        GrownCount(f, d.rest, D.WithItem(a.slot, count, d.slot), count + 1, D.RoomFor(|s|, f.dataSize, count, room),
                   a.heap);
      }
    }
  }

  /** A required, optional or oneof pointer field: its block is new and has room for one
      item. */
  lemma {:induction false} OneRoom(sch: Schema, f: Field, s: seq<Byte>, c: Cell, h: Heap)
    requires WfSchema(sch) && KnownRef(sch, f) && (f.ltype.SubMessage? <==> f.ptr.Fields?)
    requires f.atype.Pointer? && !f.htype.Repeated? && Named(h)
    ensures var o := D.PointerOne(sch, f, s, c, h);
            o.ok ==>
              && Named(o.heap) && Later(h, o.heap) && (f.htype.OneOf? ==> o.cell.size == Num(f.tag))
              && RoomCell(o.heap.bytes, sch, f, o.cell.data, o.cell.size)
    decreases |s|, 4
  {
    hide D.DecValue, D.NewItem, RoomDest, AllocateField, ReleaseCell;
    var there := f.ltype.SubMessage? && !c.data.Nil?;
    var r := if there then ReleaseCell(sch, f, c.data, c.size, h) else CellHeap(c, h);
    if there {
      ReleaseCellSizes(sch, f, c.data, c.size, h);
    }
    var o := D.PointerOne(sch, f, s, c, h);
    if o.ok {
      if OwnBuffer(f) {
        BufferRoom(f, s, r.cell.data, r.heap);
        assert D.DecValue(sch, f, s, r.cell.data, r.heap) ==
               D.DecBuffer(f, s, r.cell.data, r.heap) by { IsBuffer(sch, f, s, r); }
      } else {
        AllocateRoom(r.heap, r.cell.data, f.dataSize, 1);
        var a := AllocateField(r.heap, r.cell.data, f.dataSize, 1);
        var item := D.NewItem(sch, f, ItemAt(Items(a.slot), 0));
        NewItemRoom(a.heap.bytes, sch, f, ItemAt(Items(a.slot), 0));
        ValueRoom(sch, f, s, item, a.heap);
        BlockHolds(a.heap, o.heap, a.slot, f.dataSize);
      }
      hide RoomStruct;
    }
  }

  lemma IsBuffer(sch: Schema, f: Field, s: seq<Byte>, r: CellHeap)
    requires WfSchema(sch) && KnownRef(sch, f) && OwnBuffer(f)
    ensures D.DecValue(sch, f, s, r.cell.data, r.heap) == D.DecBuffer(f, s, r.cell.data, r.heap)
  {
  }

  lemma UnionRoom(sch: Schema, sid: nat, i: nat, c: Cell, h: Heap)
    requires WfSchema(sch) && sid < |sch| && i < |sch[sid]| && sch[sid][i].htype.OneOf?
    ensures var u := D.ReleaseUnion(sch, sid, i, c, h);
            SameSizes(h, u.heap) && (u.ok ==> u.cell == c || Number(u.cell.size) != sch[sid][i].tag)
  {
    hide ReleaseCell;
    assert WfMessage(sch, sid);
    var was := Number(c.size);
    if was > 0 && was != sch[sid][i].tag {
      var j := FirstMatch(sch[sid], was, 0);
      if j < |sch[sid]| && UnionHead(sch[sid], j) == UnionHead(sch[sid], i) {
        assert OkField(sch, sid, j);
        ReleaseCellSizes(sch, sch[sid][j], c.data, c.size, h);
        if j != i {
          OneOfHead(sch[sid], j, i);
        }
        KeptWhich(sch, sch[sid][j], c, h);
      }
    }
  }

  lemma KeptWhich(sch: Schema, f: Field, c: Cell, h: Heap)
    requires WfSchema(sch) && KnownRef(sch, f) && f.htype.OneOf?
    ensures ReleaseCell(sch, f, c.data, c.size, h).cell.size == c.size
  {
  }

  /** `decode_field`. */
  lemma {:induction false} FieldRoom(sch: Schema, sid: nat, i: nat, wire: nat, s: seq<Byte>, c: Cell, h: Heap)
    requires WfSchema(sch) && sid < |sch| && i < |sch[sid]| && Named(h) && KnownRef(sch, sch[sid][i])
    requires RoomCell(h.bytes, sch, sch[sid][i], c.data, c.size)
    ensures var o := D.FieldStep(sch, sid, i, wire, s, c, h);
            o.ok ==> Named(o.heap) && Later(h, o.heap) && RoomWrite(o.heap.bytes, sch, sid, i, o.cell)
    decreases |s|, 6
  {
    hide D.StaticStep, D.PointerOne, D.PointerSingle, D.PointerPacked, RoomCell, D.ReleaseUnion;
    var f := sch[sid][i];
    assert WfMessage(sch, sid) && OkField(sch, sid, i);
    var u := if f.htype.OneOf? then D.ReleaseUnion(sch, sid, i, c, h) else D.UnionOut(true, c, h);
    var o := D.FieldStep(sch, sid, i, wire, s, c, h);
    if o.ok {
      if f.htype.OneOf? {
        UnionRoom(sch, sid, i, c, h);
      }
      StartsWithRoom(h.bytes, sch, f, c, u.cell);
      if f.atype.Static? {
        StaticRoom(sch, f, wire, s, u.cell, u.heap);
      } else if !f.htype.Repeated? {
        OneRoom(sch, f, s, u.cell, u.heap);
      } else if wire == WT_STRING && Packable(f.ltype) {
        PackedRoom(sch, f, s, u.cell, u.heap);
      } else {
        SingleRoom(sch, f, s, u.cell, u.heap);
      }
      NormalRoom(o.heap.bytes, sch, sid, i, o.cell);
    }
  }

  lemma StartsWithRoom(m: Sizes, sch: Schema, f: Field, c: Cell, d: Cell)
    requires WfSchema(sch) && KnownRef(sch, f) && RoomCell(m, sch, f, c.data, c.size)
    requires d == c || (f.htype.OneOf? && Number(d.size) != f.tag)
    ensures RoomCell(m, sch, f, d.data, d.size)
  {
  }

  /** A field without a counter looks at none. */
  lemma NormalRoom(m: Sizes, sch: Schema, sid: nat, i: nat, c: Cell)
    requires WfSchema(sch) && sid < |sch| && i < |sch[sid]| && KnownRef(sch, sch[sid][i])
    ensures var size := NormalCell(sch[sid][i], c).size;
            && (RoomCell(m, sch, sch[sid][i], c.data, c.size) ==> RoomCell(m, sch, sch[sid][i], c.data, size))
            && (RoomCell(m, sch, sch[sid][i], c.data, size) && (sch[sid][i].atype.Static? ==> 0 <= Number(c.size)) ==>
                  RoomCell(m, sch, sch[sid][i], c.data, c.size))
  {
    assert WfMessage(sch, sid) && OkField(sch, sid, i);
  }

  // ------------------------------------------------------------------ messages

  lemma {:induction false} KnownRoom(sch: Schema, sid: nat, i: nat, wire: nat, s: seq<Byte>, run: D.Run)
    requires WfSchema(sch) && sid < |sch| && i < |sch[sid]| && Named(run.heap)
    requires RoomStruct(run.heap.bytes, sch, sid, Sub(run.store)) && 0 <= run.fixedSize
    ensures var o := D.KnownRecord(sch, sid, i, wire, s, run);
            o.ok ==>
              Named(o.run.heap) && Later(run.heap, o.run.heap)
              && RoomStruct(o.run.heap.bytes, sch, sid, Sub(o.run.store))
    decreases |s|, 7
  {
    hide D.FieldStep, RoomCell, PutCell, RoomWrite;
    var fs := sch[sid];
    assert WfMessage(sch, sid) && OkField(sch, sid, i);
    var run1 := (if D.FixedCount(fs[i]) then D.EnterFixed(run, i) else run).(seen := run.seen + D.Seen(fs, i));
    var c := D.RunCell(fs, run1, i);
    assert RoomField(run.heap.bytes, sch, sid, Sub(run.store), i);
    assert NormalCell(fs[i], c) == NormalCell(fs[i], CellOf(fs, run.store, i));
    NormalRoom(run.heap.bytes, sch, sid, i, CellOf(fs, run.store, i));
    if D.FixedCount(fs[i]) {
      NormalRoom(run.heap.bytes, sch, sid, i, c);
    }
    FieldRoom(sch, sid, i, wire, s, c, run1.heap);
    var o := D.FieldStep(sch, sid, i, wire, s, c, run1.heap);
    if o.ok {
      KeptStruct(run.heap.bytes, o.heap.bytes, sch, sid, Sub(run.store));
      hide RoomStruct;
      PutRoom(o.heap.bytes, sch, sid, run.store, i, o.cell);
    }
  }

  lemma {:induction false} RecordRoom(sch: Schema, sid: nat, s: seq<Byte>, run: D.Run)
    requires WfSchema(sch) && sid < |sch| && Named(run.heap) && 0 <= run.fixedSize
    requires RoomStruct(run.heap.bytes, sch, sid, Sub(run.store))
    ensures var o := D.Record(sch, sid, s, run);
            o.ok ==>
              && Named(o.run.heap) && Later(run.heap, o.run.heap) && 0 <= o.run.fixedSize
              && RoomStruct(o.run.heap.bytes, sch, sid, Sub(o.run.store))
    decreases |s|, 8
  {
    hide D.KnownRecord, RoomField;
    match D.DecodeTag(s)
    case Tag(number, wire, rest) =>
      if FirstMatch(sch[sid], number, 0) < |sch[sid]| {
        KnownRoom(sch, sid, FirstMatch(sch[sid], number, 0), wire, rest, run);
        DecodeOwnership.CounterStays(sch, sid, FirstMatch(sch[sid], number, 0), wire, rest, run);
      }
    case _ =>
  }

  lemma {:induction false} RecordsRoom(sch: Schema, sid: nat, s: seq<Byte>, run: D.Run)
    requires WfSchema(sch) && sid < |sch| && Named(run.heap) && 0 <= run.fixedSize
    requires RoomStruct(run.heap.bytes, sch, sid, Sub(run.store))
    ensures var o := D.Records(sch, sid, s, run);
            o.ok ==>
              Named(o.run.heap) && Later(run.heap, o.run.heap)
              && RoomStruct(o.run.heap.bytes, sch, sid, Sub(o.run.store))
    decreases |s|, 9
  {
    hide D.Record, RoomStruct;
    if s == [] {
    } else {
      RecordRoom(sch, sid, s, run);
      var o := D.Record(sch, sid, s, run);
      if o.ok && !o.stopped {
        RecordsRoom(sch, sid, o.rest, o.run);
        if D.Records(sch, sid, o.rest, o.run).ok {
          LaterThen(run.heap, o.run.heap, D.Records(sch, sid, o.rest, o.run).run.heap);
        }
      }
    }
  }

  lemma {:induction false} NoInitRoom(sch: Schema, sid: nat, s: seq<Byte>, m: Store, h: Heap)
    requires WfSchema(sch) && sid < |sch| && Named(h) && RoomStruct(h.bytes, sch, sid, Sub(m))
    ensures var o := D.DecodeNoInit(sch, sid, s, m, h);
            o.ok ==> Named(o.heap) && Later(h, o.heap) && RoomStruct(o.heap.bytes, sch, sid, Sub(o.store))
    decreases |s|, 10
  {
    RecordsRoom(sch, sid, s, D.Start(m, h));
  }

  /** After a successful decode every block, at any depth, was granted the bytes that what
      is in it takes: `n` entries of an array, one item, a string and its terminator,
      a bytes array and its size. */
  lemma {:induction false} DecodeRoom(sch: Schema, sid: nat, s: seq<Byte>, m: Store, h: Heap)
    requires WfSchema(sch) && sid < |sch| && Named(h) && RoomStruct(h.bytes, sch, sid, Sub(m))
    ensures var o := D.Decode(sch, sid, s, m, h);
            o.ok ==> Named(o.heap) && Later(h, o.heap) && RoomStruct(o.heap.bytes, sch, sid, Sub(o.store))
    decreases |s|, 11
  {
    hide RoomStruct, D.DecodeNoInit;
    DefaultsRoom(h.bytes, sch, sid, m, |sch[sid]|);
    NoInitRoom(sch, sid, s, Initialised(sch, sid, m), h);
  }
}
