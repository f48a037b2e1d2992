/** Structs that are equal but for the names of their heap blocks: no decoder can
    tell them apart. */
module UpToBlocks {
  import opened Bits
  import opened Varint
  import opened Descriptor
  import opened Scalars
  import opened FieldIterator
  import opened Defaults
  import opened Allocator
  import opened Release
  import opened DecodeSpec

  // ------------------------------------------------------------- alike values

  /** Equal, except that a pointer may lead to another block with alike contents. */
  predicate Alike(x: Slot, y: Slot)
    decreases x
  {
    match x
    case Sub(m) => y.Sub? && m.Keys == y.members.Keys && forall k :: k in m ==> Alike(m[k], y.members[k])
    case Arr(xs) => y.Arr? && |xs| == |y.items| && forall k :: 0 <= k < |xs| ==> Alike(xs[k], y.items[k])
    case Block(_, xs) => y.Block? && |xs| == |y.cells| && forall k :: 0 <= k < |xs| ==> Alike(xs[k], y.cells[k])
    case _ => x == y
  }

  predicate AlikeItems(xs: seq<Slot>, ys: seq<Slot>) {
    |xs| == |ys| && forall k :: 0 <= k < |xs| ==> Alike(xs[k], ys[k])
  }

  predicate AlikeStores(a: Store, b: Store) {
    a.Keys == b.Keys && forall k :: k in a ==> Alike(a[k], b[k])
  }

  predicate AlikeCells(c: Cell, d: Cell) {
    Alike(c.data, d.data) && Alike(c.size, d.size)
  }

  type Policy = nat -> bool

  /** Whether a request is granted depends on its size, by the same rule in both heaps. */
  ghost predicate SamePolicy(rule: Policy, h: Heap, g: Heap) {
    && (forall id: nat, n: nat {:trigger h.grant(id, n)} :: h.grant(id, n) == rule(n))
    && (forall id: nat, n: nat {:trigger g.grant(id, n)} :: g.grant(id, n) == rule(n))
  }

  lemma {:induction false} AlikeItself(x: Slot)
    ensures Alike(x, x)
    decreases x
  {
    match x
    case Sub(m) =>
      forall k | k in m ensures Alike(m[k], m[k]) {
        AlikeItself(m[k]);
      }
    case Arr(xs) =>
      forall k | 0 <= k < |xs| ensures Alike(xs[k], xs[k]) {
        AlikeItself(xs[k]);
      }
    case Block(_, xs) =>
      forall k | 0 <= k < |xs| ensures Alike(xs[k], xs[k]) {
        AlikeItself(xs[k]);
      }
    case _ =>
  }

  lemma {:induction false} AlikeBackwards(x: Slot, y: Slot)
    requires Alike(x, y)
    ensures Alike(y, x)
    decreases x
  {
    match x
    case Sub(m) =>
      forall k | k in m ensures Alike(y.members[k], m[k]) {
        AlikeBackwards(m[k], y.members[k]);
      }
    case Arr(xs) =>
      forall k | 0 <= k < |xs| ensures Alike(y.items[k], xs[k]) {
        AlikeBackwards(xs[k], y.items[k]);
      }
    case Block(_, xs) =>
      forall k | 0 <= k < |xs| ensures Alike(y.cells[k], xs[k]) {
        AlikeBackwards(xs[k], y.cells[k]);
      }
    case _ =>
  }

  lemma StoreItself(m: Store)
    ensures AlikeStores(m, m)
  {
    hide Alike;
    forall k | k in m ensures Alike(m[k], m[k]) {
      AlikeItself(m[k]);
    }
  }

  /** What the decoders read from a slot. */
  lemma Views(x: Slot, y: Slot)
    requires Alike(x, y)
    ensures Number(x) == Number(y) && AlikeItems(Items(x), Items(y)) && AlikeStores(Members(x), Members(y))
    ensures x.Sub? == y.Sub? && x.Arr? == y.Arr? && x.Block? == y.Block? && x.Nil? == y.Nil? && x.Num? == y.Num?
    ensures !x.Sub? && !x.Arr? && !x.Block? ==> x == y
  {
  }

  /** What they build. */
  lemma Structs(a: Store, b: Store)
    requires AlikeStores(a, b)
    ensures Alike(Sub(a), Sub(b))
  {
  }

  lemma Arrays(xs: seq<Slot>, ys: seq<Slot>, i: nat, j: nat)
    requires AlikeItems(xs, ys)
    ensures Alike(Arr(xs), Arr(ys)) && Alike(Block(i, xs), Block(j, ys))
  {
  }

  lemma Entry(xs: seq<Slot>, ys: seq<Slot>, k: int, x: Slot, y: Slot)
    requires AlikeItems(xs, ys) && Alike(x, y)
    ensures Alike(ItemAt(xs, k), ItemAt(ys, k)) && AlikeItems(SetItem(xs, k, x), SetItem(ys, k, y))
  {
    AlikeItself(Undef);
    hide Alike;
  }

  lemma StoredItem(x: Slot, y: Slot, k: int, u: Slot, v: Slot)
    requires Alike(x, y) && Alike(u, v)
    ensures Alike(WithItem(x, k, u), WithItem(y, k, v))
  {
    Views(x, y);
    Entry(Items(x), Items(y), k, u, v);
    if x.Block? {
      Arrays(SetItem(x.cells, k, u), SetItem(y.cells, k, v), x.id, y.id);
    }
    hide Alike, AlikeItems;
  }

  lemma Slice(xs: seq<Slot>, ys: seq<Slot>)
    requires AlikeItems(xs, ys) && xs != []
    ensures Alike(xs[0], ys[0]) && AlikeItems(xs[1..], ys[1..])
  {
    hide Alike;
  }

  lemma Prepended(x: Slot, y: Slot, xs: seq<Slot>, ys: seq<Slot>)
    requires AlikeItems(xs, ys) && Alike(x, y)
    ensures AlikeItems([x] + xs, [y] + ys)
  {
    hide Alike;
  }

  // -------------------------------------------------------------------- stores

  lemma Looked(a: Store, b: Store, k: int)
    requires AlikeStores(a, b)
    ensures Alike(Look(a, k), Look(b, k)) && (k in a <==> k in b)
  {
    AlikeItself(Undef);
    hide Alike;
  }

  lemma Updated(a: Store, b: Store, k: int, x: Slot, y: Slot)
    requires AlikeStores(a, b) && Alike(x, y)
    ensures AlikeStores(a[k := x], b[k := y])
  {
    hide Alike;
  }

  lemma CellsOf(fs: seq<Field>, a: Store, b: Store, i: nat)
    requires AlikeStores(a, b)
    ensures AlikeCells(CellOf(fs, a, i), CellOf(fs, b, i))
  {
    hide AlikeStores, Alike;
    Looked(a, b, DataAt(fs, i));
    Looked(a, b, SizeAt(fs, i));
    AlikeItself(Undef);
  }

  lemma CellsPut(fs: seq<Field>, a: Store, b: Store, i: nat, c: Cell, d: Cell)
    requires AlikeStores(a, b) && AlikeCells(c, d)
    ensures AlikeStores(PutCell(fs, a, i, c), PutCell(fs, b, i, d))
  {
    hide AlikeStores, Alike;
    Updated(a, b, DataAt(fs, i), c.data, d.data);
    Updated(a[DataAt(fs, i) := c.data], b[DataAt(fs, i) := d.data], SizeAt(fs, i), c.size, d.size);
  }

  // ------------------------------------------------------------------ defaults

  lemma {:induction false} DefaultAlike(sch: Schema, sid: nat, i: nat, c: Cell, d: Cell)
    requires WfSchema(sch) && sid < |sch| && i < |sch[sid]| && AlikeCells(c, d)
    ensures AlikeCells(DefaultCell(sch, sid, i, c), DefaultCell(sch, sid, i, d))
    decreases sid, 0, 0
  {
    hide Alike;
    var f := sch[sid][i];
    assert WfMessage(sch, sid) && OkField(sch, sid, i);
    AlikeItself(Nil);
    AlikeItself(Num(0));
    if f.atype.Static? {
      if f.ptr.Fields? {
        Views(c.data, d.data);
        DefaultsAlike(sch, f.ptr.id, Members(c.data), Members(d.data), |sch[f.ptr.id]|);
        Structs(SetDefaults(sch, f.ptr.id, Members(c.data), |sch[f.ptr.id]|),
                SetDefaults(sch, f.ptr.id, Members(d.data), |sch[f.ptr.id]|));
      } else {
        AlikeItself(DefaultData(sch, sid, i, c.data));
      }
    }
  }

  lemma {:induction false} DefaultsAlike(sch: Schema, sid: nat, a: Store, b: Store, n: nat)
    requires WfSchema(sch) && sid < |sch| && n <= |sch[sid]| && AlikeStores(a, b)
    ensures AlikeStores(SetDefaults(sch, sid, a, n), SetDefaults(sch, sid, b, n))
    decreases sid, 1, n
  {
    hide AlikeStores, AlikeCells;
    if n == 0 {
    } else {
      var a1, b1 := SetDefaults(sch, sid, a, n - 1), SetDefaults(sch, sid, b, n - 1);
      DefaultsAlike(sch, sid, a, b, n - 1);
      CellsOf(sch[sid], a1, b1, n - 1);
      DefaultAlike(sch, sid, n - 1, CellOf(sch[sid], a1, n - 1), CellOf(sch[sid], b1, n - 1));
      CellsPut(sch[sid], a1, b1, n - 1, DefaultCell(sch, sid, n - 1, CellOf(sch[sid], a1, n - 1)),
               DefaultCell(sch, sid, n - 1, CellOf(sch[sid], b1, n - 1)));
    }
  }

  // ------------------------------------------------------------------- release

  ghost predicate AlikeSlotHeaps(rule: Policy, a: SlotHeap, b: SlotHeap) {
    Alike(a.slot, b.slot) && SamePolicy(rule, a.heap, b.heap)
  }

  ghost predicate AlikeItemsHeaps(rule: Policy, a: ItemsHeap, b: ItemsHeap) {
    AlikeItems(a.items, b.items) && SamePolicy(rule, a.heap, b.heap)
  }

  ghost predicate AlikeCellHeaps(rule: Policy, a: CellHeap, b: CellHeap) {
    AlikeCells(a.cell, b.cell) && SamePolicy(rule, a.heap, b.heap)
  }

  lemma Freed(rule: Policy, h: Heap, g: Heap, x: Slot, y: Slot)
    requires SamePolicy(rule, h, g)
    ensures SamePolicy(rule, Free(h, x), Free(g, y))
  {
  }

  lemma {:induction false} FreedItems(rule: Policy, xs: seq<Slot>, ys: seq<Slot>, n: int, h: Heap, g: Heap)
    requires AlikeItems(xs, ys) && SamePolicy(rule, h, g)
    ensures AlikeItemsHeaps(rule, FreeItems(xs, n, h), FreeItems(ys, n, g))
    decreases |xs|
  {
    hide Alike, AlikeItems, SamePolicy, Free;
    assert |xs| == |ys| by { SameLength(xs, ys); }
    if n <= 0 || xs == [] {
    } else {
      Slice(xs, ys);
      Freed(rule, h, g, xs[0], ys[0]);
      FreedItems(rule, xs[1..], ys[1..], n - 1, Free(h, xs[0]), Free(g, ys[0]));
      AlikeItself(Nil);
      Prepended(Nil, Nil, FreeItems(xs[1..], n - 1, Free(h, xs[0])).items,
                FreeItems(ys[1..], n - 1, Free(g, ys[0])).items);
    }
  }

  lemma SameLength(xs: seq<Slot>, ys: seq<Slot>)
    requires AlikeItems(xs, ys)
    ensures |xs| == |ys|
  {
  }

  lemma {:induction false} ReleaseItemsAlike(rule: Policy, sch: Schema, id: nat, xs: seq<Slot>, ys: seq<Slot>, n: int,
                                             h: Heap, g: Heap)
    requires WfSchema(sch) && id < |sch| && AlikeItems(xs, ys) && SamePolicy(rule, h, g)
    ensures AlikeItemsHeaps(rule, ReleaseItems(sch, id, xs, n, h), ReleaseItems(sch, id, ys, n, g))
    decreases xs
  {
    hide Alike, AlikeItems, SamePolicy, ReleaseStruct;
    SameLength(xs, ys);
    if n <= 0 || xs == [] {
    } else {
      Slice(xs, ys);
      ReleaseStructAlike(rule, sch, id, xs[0], ys[0], h, g);
      var a, b := ReleaseStruct(sch, id, xs[0], h), ReleaseStruct(sch, id, ys[0], g);
      ReleaseItemsAlike(rule, sch, id, xs[1..], ys[1..], n - 1, a.heap, b.heap);
      Prepended(a.slot, b.slot, ReleaseItems(sch, id, xs[1..], n - 1, a.heap).items,
                ReleaseItems(sch, id, ys[1..], n - 1, b.heap).items);
    }
  }

  lemma {:induction false} ReleaseSubsAlike(rule: Policy, sch: Schema, f: Field, x: Slot, y: Slot, c: Slot, d: Slot,
                                            h: Heap, g: Heap)
    requires WfSchema(sch) && KnownRef(sch, f) && Alike(x, y) && Alike(c, d) && SamePolicy(rule, h, g)
    ensures AlikeSlotHeaps(rule, ReleaseSubs(sch, f, x, c, h), ReleaseSubs(sch, f, y, d, g))
    decreases x, 2
  {
    hide Alike, AlikeItems, SamePolicy, ReleaseStruct, ReleaseItems;
    Views(x, y);
    Views(c, d);
    if f.ptr.Fields? {
      var id, n := f.ptr.id, SubCount(f, c);
      match x
      case Sub(_) =>
        ReleaseStructAlike(rule, sch, id, x, y, h, g);
      case Arr(xs) =>
        ReleaseItemsAlike(rule, sch, id, xs, y.items, n, h, g);
        Arrays(ReleaseItems(sch, id, xs, n, h).items, ReleaseItems(sch, id, y.items, n, g).items, 0, 0);
      case Block(i, xs) =>
        ReleaseItemsAlike(rule, sch, id, xs, y.cells, n, h, g);
        Arrays(ReleaseItems(sch, id, xs, n, h).items, ReleaseItems(sch, id, y.cells, n, g).items, i, y.id);
      case _ =>
    }
  }

  lemma EntriesAlike(rule: Policy, f: Field, x: Slot, y: Slot, c: Slot, d: Slot, h: Heap, g: Heap)
    requires Alike(x, y) && Alike(c, d) && SamePolicy(rule, h, g)
    ensures AlikeSlotHeaps(rule, FreeEntries(f, x, c, h), FreeEntries(f, y, d, g))
  {
    hide Alike, AlikeItems, SamePolicy, FreeItems;
    Views(x, y);
    Views(c, d);
    if x.Block? {
      FreedItems(rule, x.cells, y.cells, Number(c), h, g);
      Arrays(FreeItems(x.cells, Number(c), h).items, FreeItems(y.cells, Number(c), g).items, x.id, y.id);
    }
  }

  /** The target of a field after its submessages have been released. */
  function Inner(sch: Schema, f: Field, x: Slot, size: Slot, h: Heap): SlotHeap
    requires WfSchema(sch) && KnownRef(sch, f)
  {
    if f.ltype.SubMessage? then ReleaseSubs(sch, f, x, size, h) else SlotHeap(x, h)
  }

  /** A pointer field after its target has been released. */
  function Nulled(f: Field, a: SlotHeap, size: Slot): CellHeap {
    var entries := FreeEntries(f, a.slot, size, a.heap);
    CellHeap(Cell(Nil, if f.htype.Repeated? then Num(0) else size), Free(entries.heap, entries.slot))
  }

  lemma CellReleased(sch: Schema, f: Field, x: Slot, size: Slot, h: Heap)
    requires WfSchema(sch) && KnownRef(sch, f)
    ensures var a := Inner(sch, f, x, size, h);
            ReleaseCell(sch, f, x, size, h) ==
            if Inactive(f, size) then CellHeap(Cell(x, size), h)
            else if f.atype.Pointer? then Nulled(f, a, size)
            else CellHeap(Cell(a.slot, size), a.heap)
  {
    hide ReleaseSubs, FreeEntries, Free;
  }

  lemma NulledAlike(rule: Policy, f: Field, a: SlotHeap, b: SlotHeap, c: Slot, d: Slot)
    requires AlikeSlotHeaps(rule, a, b) && Alike(c, d)
    ensures AlikeCellHeaps(rule, Nulled(f, a, c), Nulled(f, b, d))
  {
    hide Alike, SamePolicy, FreeEntries, Free;
    AlikeItself(Nil);
    AlikeItself(Num(0));
    EntriesAlike(rule, f, a.slot, b.slot, c, d, a.heap, b.heap);
    var p, q := FreeEntries(f, a.slot, c, a.heap), FreeEntries(f, b.slot, d, b.heap);
    Freed(rule, p.heap, q.heap, p.slot, q.slot);
  }

  lemma CellAlike(rule: Policy, sch: Schema, f: Field, x: Slot, y: Slot, c: Slot, d: Slot, h: Heap, g: Heap)
    requires WfSchema(sch) && KnownRef(sch, f) && Alike(x, y) && Alike(c, d) && SamePolicy(rule, h, g)
    requires AlikeSlotHeaps(rule, Inner(sch, f, x, c, h), Inner(sch, f, y, d, g))
    ensures AlikeCellHeaps(rule, ReleaseCell(sch, f, x, c, h), ReleaseCell(sch, f, y, d, g))
  {
    hide Alike, AlikeItems, AlikeStores, SamePolicy, Inner, Nulled, ReleaseCell;
    Views(c, d);
    CellReleased(sch, f, x, c, h);
    CellReleased(sch, f, y, d, g);
    NulledAlike(rule, f, Inner(sch, f, x, c, h), Inner(sch, f, y, d, g), c, d);
  }

  lemma {:induction false} ReleaseCellAlike(rule: Policy, sch: Schema, f: Field, x: Slot, y: Slot, c: Slot, d: Slot,
                                            h: Heap, g: Heap)
    requires WfSchema(sch) && KnownRef(sch, f) && Alike(x, y) && Alike(c, d) && SamePolicy(rule, h, g)
    ensures AlikeCellHeaps(rule, ReleaseCell(sch, f, x, c, h), ReleaseCell(sch, f, y, d, g))
    decreases x, 3
  {
    hide Alike, SamePolicy, ReleaseSubs, ReleaseCell;
    if f.ltype.SubMessage? {
      ReleaseSubsAlike(rule, sch, f, x, y, c, d, h, g);
    }
    CellAlike(rule, sch, f, x, y, c, d, h, g);
  }

  ghost predicate AlikeStoreHeaps(rule: Policy, a: StoreHeap, b: StoreHeap) {
    AlikeStores(a.store, b.store) && SamePolicy(rule, a.heap, b.heap)
  }

  lemma {:induction false} ReleaseFieldsAlike(rule: Policy, sch: Schema, sid: nat, x: Slot, y: Slot, h: Heap, g: Heap,
                                              n: nat)
    requires WfSchema(sch) && sid < |sch| && n <= |sch[sid]| && Alike(x, y) && SamePolicy(rule, h, g)
    ensures AlikeStoreHeaps(rule, ReleaseFields(sch, sid, x, h, n), ReleaseFields(sch, sid, y, g, n))
    decreases x, 0, n
  {
    hide Alike, AlikeItems, AlikeStores, SamePolicy, ReleaseCell;
    Views(x, y);
    if n == 0 {
    } else {
      var fs, k := sch[sid], DataAt(sch[sid], n - 1);
      assert WfMessage(sch, sid) && OkField(sch, sid, n - 1);
      ReleaseFieldsAlike(rule, sch, sid, x, y, h, g, n - 1);
      CellsOf(fs, Members(x), Members(y), n - 1);
      var c, d := CellOf(fs, Members(x), n - 1), CellOf(fs, Members(y), n - 1);
      Views(c.size, d.size);
      Looked(Members(x), Members(y), k);
      if x.Sub? && k in x.members {
        var p, q := ReleaseFields(sch, sid, x, h, n - 1), ReleaseFields(sch, sid, y, g, n - 1);
        ReleaseCellAlike(rule, sch, fs[n - 1], x.members[k], y.members[k], c.size, d.size, p.heap, q.heap);
        CellsPut(fs, p.store, q.store, n - 1, ReleaseCell(sch, fs[n - 1], x.members[k], c.size, p.heap).cell,
                 ReleaseCell(sch, fs[n - 1], y.members[k], d.size, q.heap).cell);
      }
    }
  }

  lemma {:induction false} ReleaseStructAlike(rule: Policy, sch: Schema, sid: nat, x: Slot, y: Slot, h: Heap, g: Heap)
    requires WfSchema(sch) && sid < |sch| && Alike(x, y) && SamePolicy(rule, h, g)
    ensures AlikeSlotHeaps(rule, ReleaseStruct(sch, sid, x, h), ReleaseStruct(sch, sid, y, g))
    decreases x, 1
  {
    hide Alike, AlikeStores, SamePolicy, ReleaseFields;
    ReleaseFieldsAlike(rule, sch, sid, x, y, h, g, |sch[sid]|);
    Structs(ReleaseFields(sch, sid, x, h, |sch[sid]|).store, ReleaseFields(sch, sid, y, g, |sch[sid]|).store);
  }

  // ----------------------------------------------------------------- one value

  ghost predicate AlikeValues(rule: Policy, a: ValueOut, b: ValueOut) {
    a.ok == b.ok && a.rest == b.rest && Alike(a.slot, b.slot) && SamePolicy(rule, a.heap, b.heap)
  }

  ghost predicate AlikeAllocs(rule: Policy, a: AllocOut, b: AllocOut) {
    a.ok == b.ok && Alike(a.slot, b.slot) && SamePolicy(rule, a.heap, b.heap)
  }

  lemma Resized(xs: seq<Slot>, ys: seq<Slot>, n: nat)
    requires AlikeItems(xs, ys)
    ensures AlikeItems(Resize(xs, n), Resize(ys, n))
  {
    hide Alike;
    AlikeItself(Undef);
  }

  lemma ReallocAlike(rule: Policy, h: Heap, g: Heap, x: Slot, y: Slot, n: nat, bytes: nat)
    requires Alike(x, y) && SamePolicy(rule, h, g)
    ensures AlikeAllocs(rule, Realloc(h, x, n, bytes), Realloc(g, y, n, bytes))
  {
    hide Alike, AlikeItems, AlikeStores, Resize;
    assert h.grant(h.next, bytes) == g.grant(g.next, bytes);
    Views(x, y);
    Resized(Items(x), Items(y), n);
    Arrays(Resize(Items(x), n), Resize(Items(y), n), h.next, g.next);
  }

  lemma AllocateAlike(rule: Policy, h: Heap, g: Heap, x: Slot, y: Slot, dataSize: nat, n: nat)
    requires Alike(x, y) && SamePolicy(rule, h, g)
    ensures AlikeAllocs(rule, AllocateField(h, x, dataSize, n), AllocateField(g, y, dataSize, n))
    ensures AllocateField(h, x, dataSize, n).ok ==>
              AllocateField(h, x, dataSize, n).slot.Block? && AllocateField(g, y, dataSize, n).slot.Block?
  {
    hide Alike, SamePolicy, RejectsSize, Resize;
    ReallocAlike(rule, h, g, x, y, n, n * dataSize);
  }

  lemma {:induction false} ScalarAlike(f: Field, s: seq<Byte>, x: Slot, y: Slot)
    requires Alike(x, y)
    ensures var d, e := DecScalar(f, s, x), DecScalar(f, s, y);
            d.ok == e.ok && d.rest == e.rest && Alike(d.slot, e.slot)
  {
    ScalarStores(f, s, x, y);
    AlikeItself(DecScalar(f, s, x).slot);
    hide Alike, DecScalar;
  }

  /** A scalar decoder stores what does not depend on the old value, or keeps it. */
  lemma ScalarStores(f: Field, s: seq<Byte>, x: Slot, y: Slot)
    ensures var d, e := DecScalar(f, s, x), DecScalar(f, s, y);
            d.ok == e.ok && d.rest == e.rest && (d.slot == e.slot || (d.slot == x && e.slot == y))
  {
    hide Varint32, Varint64, UnZigZag, SignedCast, UnsignedCast, DecFixed32, DecFixed64;
  }

  lemma BufferBlock(b: seq<Byte>)
    ensures forall i: nat, j: nat {:trigger Alike(Block(i, [Buf(b)]), Block(j, [Buf(b)]))} ::
              Alike(Block(i, [Buf(b)]), Block(j, [Buf(b)]))
  {
    forall i: nat, j: nat ensures Alike(Block(i, [Buf(b)]), Block(j, [Buf(b)])) {
      AlikeItself(Buf(b));
      Arrays([Buf(b)], [Buf(b)], i, j);
    }
  }

  lemma {:induction false} FilledHeap(rule: Policy, f: Field, r: seq<Byte>, n: nat, capacity: nat, x: Slot, y: Slot,
                                      h: Heap, g: Heap)
    requires Alike(x, y) && SamePolicy(rule, h, g) && f.atype.Pointer?
    ensures AlikeValues(rule, FillBuffer(f, r, n, capacity, x, h), FillBuffer(f, r, n, capacity, y, g))
  {
    hide Alike, SamePolicy, AllocateField;
    AllocateAlike(rule, h, g, x, y, capacity, 1);
    if n <= |r| {
      BufferBlock(r[..n]);
    }
  }

  lemma {:induction false} FilledAlike(rule: Policy, f: Field, r: seq<Byte>, n: nat, capacity: nat, x: Slot, y: Slot,
                                       h: Heap, g: Heap)
    requires Alike(x, y) && SamePolicy(rule, h, g)
    ensures AlikeValues(rule, FillBuffer(f, r, n, capacity, x, h), FillBuffer(f, r, n, capacity, y, g))
  {
    hide Alike, SamePolicy, AllocateField;
    if f.atype.Pointer? {
      FilledHeap(rule, f, r, n, capacity, x, y, h, g);
    } else {
      AlikeItself(FillBuffer(f, r, n, capacity, x, h).slot);
    }
  }

  lemma {:induction false} BufferAlike(rule: Policy, f: Field, s: seq<Byte>, x: Slot, y: Slot, h: Heap, g: Heap)
    requires Alike(x, y) && SamePolicy(rule, h, g)
    ensures AlikeValues(rule, DecBuffer(f, s, x, h), DecBuffer(f, s, y, g))
  {
    hide Alike, SamePolicy, FillBuffer, Varint32, U32;
    match Varint32(s)
    case Fail =>
    case Got(n, r) =>
      FilledAlike(rule, f, r, n, if f.ltype.Bytes? then BYTES_HEADER + n else U32(n + 1), x, y, h, g);
  }

  lemma {:induction false} FixedBytesAlike(rule: Policy, f: Field, s: seq<Byte>, x: Slot, y: Slot, h: Heap, g: Heap)
    requires Alike(x, y) && SamePolicy(rule, h, g)
    ensures AlikeValues(rule, DecFixedBytes(f, s, x, h), DecFixedBytes(f, s, y, g))
  {
    hide Alike, SamePolicy, DecFixedBytes;
    FixedBytesStores(f, s, x, y, h, g);
    AlikeItself(DecFixedBytes(f, s, x, h).slot);
  }

  lemma FixedBytesStores(f: Field, s: seq<Byte>, x: Slot, y: Slot, h: Heap, g: Heap)
    ensures var a, b := DecFixedBytes(f, s, x, h), DecFixedBytes(f, s, y, g);
            && a.ok == b.ok && a.rest == b.rest && (a.slot == b.slot || (a.slot == x && b.slot == y))
            && a.heap == h && b.heap == g
  {
    hide Varint32, Zeros;
  }

  lemma {:induction false} ValueAlike(rule: Policy, sch: Schema, f: Field, s: seq<Byte>, x: Slot, y: Slot, h: Heap,
                                      g: Heap)
    requires WfSchema(sch) && KnownRef(sch, f) && Alike(x, y) && SamePolicy(rule, h, g)
    ensures AlikeValues(rule, DecValue(sch, f, s, x, h), DecValue(sch, f, s, y, g))
    decreases |s|, 2
  {
    hide Alike, SamePolicy, DecScalar, DecBuffer, DecFixedBytes, DecSub;
    ScalarAlike(f, s, x, y);
    BufferAlike(rule, f, s, x, y, h, g);
    FixedBytesAlike(rule, f, s, x, y, h, g);
    if f.ltype.SubMessage? {
      SubAlike(rule, sch, f, s, x, y, h, g);
    }
  }

  lemma {:induction false} SubAlike(rule: Policy, sch: Schema, f: Field, s: seq<Byte>, x: Slot, y: Slot, h: Heap,
                                    g: Heap)
    requires WfSchema(sch) && KnownRef(sch, f) && Alike(x, y) && SamePolicy(rule, h, g)
    ensures AlikeValues(rule, DecSub(sch, f, s, x, h), DecSub(sch, f, s, y, g))
    decreases |s|, 1
  {
    hide Alike, AlikeStores, AlikeItems, SamePolicy, Decode, DecodeNoInit;
    Views(x, y);
    match Delimited(s)
    case NoChunk =>
    case Chunk(body, _) =>
      if f.ptr.Fields? {
        var id, a, b := f.ptr.id, Members(x), Members(y);
        if f.htype.Repeated? {
          DecodeAlike(rule, sch, id, body, a, b, h, g);
          Structs(Decode(sch, id, body, a, h).store, Decode(sch, id, body, b, g).store);
        } else {
          NoInitAlike(rule, sch, id, body, a, b, h, g);
          Structs(DecodeNoInit(sch, id, body, a, h).store, DecodeNoInit(sch, id, body, b, g).store);
        }
      }
  }

  // ----------------------------------------------------------------- one field

  ghost predicate AlikeSteps(rule: Policy, a: StepOut, b: StepOut) {
    a.ok == b.ok && a.rest == b.rest && AlikeCells(a.cell, b.cell) && SamePolicy(rule, a.heap, b.heap)
  }

  lemma {:induction false} PackedAlike(f: Field, s: seq<Byte>, xs: seq<Slot>, ys: seq<Slot>, count: int)
    requires AlikeItems(xs, ys)
    ensures var a, b := PackedItems(f, s, xs, count), PackedItems(f, s, ys, count);
            a.ok == b.ok && a.rest == b.rest && AlikeItems(a.items, b.items) && a.count == b.count
    decreases |s|
  {
    hide Alike, AlikeItems, DecScalar;
    if s == [] || count >= f.arraySize {
    } else {
      AlikeItself(Undef);
      Entry(xs, ys, count, Undef, Undef);
      ScalarAlike(f, s, ItemAt(xs, count), ItemAt(ys, count));
      var d, e := DecScalar(f, s, ItemAt(xs, count)), DecScalar(f, s, ItemAt(ys, count));
      Entry(xs, ys, count, d.slot, e.slot);
      if d.ok {
        PackedAlike(f, d.rest, SetItem(xs, count, d.slot), SetItem(ys, count, e.slot), count + 1);
      }
    }
  }

  lemma StaticPackedAlike(rule: Policy, f: Field, s: seq<Byte>, c: Cell, d: Cell, h: Heap, g: Heap)
    requires AlikeCells(c, d) && SamePolicy(rule, h, g)
    ensures AlikeSteps(rule, StaticPacked(f, s, c, h), StaticPacked(f, s, d, g))
  {
    hide Alike, AlikeItems, AlikeStores, SamePolicy, PackedItems, Delimited;
    Views(c.data, d.data);
    Views(c.size, d.size);
    match Delimited(s)
    case NoChunk =>
    case Chunk(body, _) =>
      var xs, ys, k := Items(c.data), Items(d.data), Number(c.size);
      PackedAlike(f, body, xs, ys, k);
      Arrays(PackedItems(f, body, xs, k).items, PackedItems(f, body, ys, k).items, 0, 0);
      AlikeItself(Num(PackedItems(f, body, xs, k).count));
  }

  lemma {:induction false} StaticSingleAlike(rule: Policy, sch: Schema, f: Field, s: seq<Byte>, c: Cell, d: Cell,
                                             h: Heap, g: Heap)
    requires WfSchema(sch) && KnownRef(sch, f) && AlikeCells(c, d) && SamePolicy(rule, h, g)
    ensures AlikeSteps(rule, StaticSingle(sch, f, s, c, h), StaticSingle(sch, f, s, d, g))
    decreases |s|, 3
  {
    hide Alike, AlikeItems, AlikeStores, SamePolicy, DecValue;
    Views(c.data, d.data);
    Views(c.size, d.size);
    var xs, ys, k := Items(c.data), Items(d.data), Number(c.size);
    AlikeItself(Num(k + 1));
    if k < f.arraySize {
      AlikeItself(Undef);
      Entry(xs, ys, k, Undef, Undef);
      ValueAlike(rule, sch, f, s, ItemAt(xs, k), ItemAt(ys, k), h, g);
      var v, w := DecValue(sch, f, s, ItemAt(xs, k), h), DecValue(sch, f, s, ItemAt(ys, k), g);
      Entry(xs, ys, k, v.slot, w.slot);
      Arrays(SetItem(xs, k, v.slot), SetItem(ys, k, w.slot), 0, 0);
    }
  }

  lemma {:induction false} StaticAlike(rule: Policy, sch: Schema, f: Field, wire: nat, s: seq<Byte>, c: Cell, d: Cell,
                                       h: Heap, g: Heap)
    requires WfSchema(sch) && KnownRef(sch, f) && AlikeCells(c, d) && SamePolicy(rule, h, g)
    ensures AlikeSteps(rule, StaticStep(sch, f, wire, s, c, h), StaticStep(sch, f, wire, s, d, g))
    decreases |s|, 4
  {
    hide Alike, AlikeItems, AlikeStores, SamePolicy, DecValue, StaticPacked, StaticSingle, FreshStruct;
    Views(c.size, d.size);
    AlikeItself(Num(1));
    AlikeItself(Num(f.tag));
    match f.htype
    case Repeated =>
      StaticPackedAlike(rule, f, s, c, d, h, g);
      StaticSingleAlike(rule, sch, f, s, c, d, h, g);
    case OneOf =>
      if f.ltype.SubMessage? && f.ptr.Fields? && Number(c.size) != f.tag {
        AlikeItself(FreshStruct(sch, f.ptr.id));
        ValueAlike(rule, sch, f, s, FreshStruct(sch, f.ptr.id), FreshStruct(sch, f.ptr.id), h, g);
      } else {
        ValueAlike(rule, sch, f, s, c.data, d.data, h, g);
      }
    case _ =>
      ValueAlike(rule, sch, f, s, c.data, d.data, h, g);
  }

  lemma NewAlike(sch: Schema, f: Field, x: Slot, y: Slot)
    requires WfSchema(sch) && KnownRef(sch, f) && Alike(x, y)
    ensures Alike(NewItem(sch, f, x), NewItem(sch, f, y))
  {
    hide Alike;
    AlikeItself(NewItem(sch, f, x));
  }

  ghost predicate AlikeGrown(rule: Policy, a: GrowOut, b: GrowOut) {
    a.ok == b.ok && a.rest == b.rest && Alike(a.data, b.data) && a.count == b.count && SamePolicy(rule, a.heap, b.heap)
  }

  lemma MakeRoomAlike(rule: Policy, f: Field, left: nat, x: Slot, y: Slot, count: nat, room: nat, h: Heap, g: Heap)
    requires left > 0 && f.dataSize > 0 && Alike(x, y) && SamePolicy(rule, h, g)
    ensures AlikeAllocs(rule, MakeRoom(f, left, x, count, room, h), MakeRoom(f, left, y, count, room, g))
  {
    hide Alike, SamePolicy, AllocateField, RoomFor;
    AllocateAlike(rule, h, g, x, y, f.dataSize, RoomFor(left, f.dataSize, count, room));
  }

  /** One turn of the growing loop, given the room it has made. */
  lemma TurnAlike(f: Field, s: seq<Byte>, x: Slot, y: Slot, count: nat)
    requires Alike(x, y)
    ensures var d, e := DecScalar(f, s, ItemAt(Items(x), count)), DecScalar(f, s, ItemAt(Items(y), count));
            d.ok == e.ok && d.rest == e.rest && Alike(WithItem(x, count, d.slot), WithItem(y, count, e.slot))
  {
    hide Alike, AlikeItems, AlikeStores, DecScalar, WithItem;
    Views(x, y);
    AlikeItself(Undef);
    Entry(Items(x), Items(y), count, Undef, Undef);
    ScalarAlike(f, s, ItemAt(Items(x), count), ItemAt(Items(y), count));
    StoredItem(x, y, count, DecScalar(f, s, ItemAt(Items(x), count)).slot,
               DecScalar(f, s, ItemAt(Items(y), count)).slot);
  }

  lemma {:induction false} GrowAlike(rule: Policy, f: Field, s: seq<Byte>, x: Slot, y: Slot, count: nat, room: nat,
                                     h: Heap, g: Heap)
    requires f.dataSize > 0 && Alike(x, y) && SamePolicy(rule, h, g)
    ensures AlikeGrown(rule, GrowItems(f, s, x, count, room, h), GrowItems(f, s, y, count, room, g))
    decreases |s|
  {
    hide Alike, SamePolicy, MakeRoom, RoomFor, DecScalar, WithItem;
    if s == [] || count == PB_SIZE_MAX {
    } else {
      MakeRoomAlike(rule, f, |s|, x, y, count, room, h, g);
      var a, b := MakeRoom(f, |s|, x, count, room, h), MakeRoom(f, |s|, y, count, room, g);
      TurnAlike(f, s, a.slot, b.slot, count);
      var d, e := DecScalar(f, s, ItemAt(Items(a.slot), count)), DecScalar(f, s, ItemAt(Items(b.slot), count));
      if a.ok && d.ok {
        GrowAlike(rule, f, d.rest, WithItem(a.slot, count, d.slot), WithItem(b.slot, count, e.slot), count + 1,
                  RoomFor(|s|, f.dataSize, count, room), a.heap, b.heap);
      }
    }
  }

  lemma PointerPackedAlike(rule: Policy, f: Field, s: seq<Byte>, c: Cell, d: Cell, h: Heap, g: Heap)
    requires f.dataSize > 0 && AlikeCells(c, d) && SamePolicy(rule, h, g)
    ensures AlikeSteps(rule, PointerPacked(f, s, c, h), PointerPacked(f, s, d, g))
  {
    hide Alike, AlikeItems, AlikeStores, SamePolicy, GrowItems, Delimited;
    Views(c.size, d.size);
    match Delimited(s)
    case NoChunk =>
    case Chunk(body, _) =>
      var k: nat := if Number(c.size) < 0 then 0 else Number(c.size);
      GrowAlike(rule, f, body, c.data, d.data, k, k, h, g);
      AlikeItself(Num(GrowItems(f, body, c.data, k, k, h).count));
  }

  /** The item behind a pointer, decoded into the block `a` has got for it. */
  lemma {:induction false} TargetAlike(rule: Policy, sch: Schema, f: Field, s: seq<Byte>, k: int, a: AllocOut,
                                       b: AllocOut)
    requires WfSchema(sch) && KnownRef(sch, f) && AlikeAllocs(rule, a, b)
    ensures var v := DecValue(sch, f, s, NewItem(sch, f, ItemAt(Items(a.slot), k)), a.heap);
            var w := DecValue(sch, f, s, NewItem(sch, f, ItemAt(Items(b.slot), k)), b.heap);
            AlikeValues(rule, v, w) && Alike(WithItem(a.slot, k, v.slot), WithItem(b.slot, k, w.slot))
    decreases |s|, 3
  {
    hide Alike, AlikeItems, AlikeStores, SamePolicy, DecValue, NewItem, WithItem;
    Views(a.slot, b.slot);
    AlikeItself(Undef);
    Entry(Items(a.slot), Items(b.slot), k, Undef, Undef);
    NewAlike(sch, f, ItemAt(Items(a.slot), k), ItemAt(Items(b.slot), k));
    var x, y := NewItem(sch, f, ItemAt(Items(a.slot), k)), NewItem(sch, f, ItemAt(Items(b.slot), k));
    ValueAlike(rule, sch, f, s, x, y, a.heap, b.heap);
    StoredItem(a.slot, b.slot, k, DecValue(sch, f, s, x, a.heap).slot, DecValue(sch, f, s, y, b.heap).slot);
  }

  lemma {:induction false} PointerSingleAlike(rule: Policy, sch: Schema, f: Field, s: seq<Byte>, c: Cell, d: Cell,
                                              h: Heap, g: Heap)
    requires WfSchema(sch) && KnownRef(sch, f) && AlikeCells(c, d) && SamePolicy(rule, h, g)
    ensures AlikeSteps(rule, PointerSingle(sch, f, s, c, h), PointerSingle(sch, f, s, d, g))
    decreases |s|, 4
  {
    hide Alike, AlikeItems, AlikeStores, SamePolicy, DecValue, NewItem, WithItem, AllocateField;
    Views(c.size, d.size);
    var k := Number(c.size);
    AlikeItself(Num(k + 1));
    if 0 <= k != PB_SIZE_MAX {
      AllocateAlike(rule, h, g, c.data, d.data, f.dataSize, k + 1);
      var a, b := AllocateField(h, c.data, f.dataSize, k + 1), AllocateField(g, d.data, f.dataSize, k + 1);
      TargetAlike(rule, sch, f, s, k, a, b);
    }
  }

  /** A single pointer field after its old target has been released. */
  lemma {:induction false} OneAlike(rule: Policy, sch: Schema, f: Field, s: seq<Byte>, c: Cell, d: Cell, h: Heap,
                                    g: Heap)
    requires WfSchema(sch) && KnownRef(sch, f) && AlikeCells(c, d) && SamePolicy(rule, h, g)
    ensures AlikeSteps(rule, PointerOne(sch, f, s, c, h), PointerOne(sch, f, s, d, g))
    decreases |s|, 4
  {
    hide Alike, AlikeItems, AlikeStores, SamePolicy, DecValue, NewItem, WithItem, AllocateField, ReleaseCell;
    Views(c.data, d.data);
    AlikeItself(Num(f.tag));
    ReleaseCellAlike(rule, sch, f, c.data, d.data, c.size, d.size, h, g);
    var was := f.ltype.SubMessage? && !c.data.Nil?;
    var p := if was then ReleaseCell(sch, f, c.data, c.size, h) else CellHeap(c, h);
    var q := if was then ReleaseCell(sch, f, d.data, d.size, g) else CellHeap(d, g);
    if f.ltype.String? || f.ltype.Bytes? {
      ValueAlike(rule, sch, f, s, p.cell.data, q.cell.data, p.heap, q.heap);
    } else {
      AllocateAlike(rule, p.heap, q.heap, p.cell.data, q.cell.data, f.dataSize, 1);
      TargetAlike(rule, sch, f, s, 0, AllocateField(p.heap, p.cell.data, f.dataSize, 1),
                  AllocateField(q.heap, q.cell.data, f.dataSize, 1));
    }
  }

  lemma {:induction false} PointerAlike(rule: Policy, sch: Schema, f: Field, wire: nat, s: seq<Byte>, c: Cell, d: Cell,
                                        h: Heap, g: Heap)
    requires WfSchema(sch) && KnownRef(sch, f) && f.dataSize > 0 && AlikeCells(c, d) && SamePolicy(rule, h, g)
    ensures AlikeSteps(rule, PointerStep(sch, f, wire, s, c, h), PointerStep(sch, f, wire, s, d, g))
    decreases |s|, 5
  {
    hide AlikeCells, SamePolicy, PointerOne, PointerPacked, PointerSingle, AlikeSteps;
    OneAlike(rule, sch, f, s, c, d, h, g);
    PointerPackedAlike(rule, f, s, c, d, h, g);
    PointerSingleAlike(rule, sch, f, s, c, d, h, g);
  }

  ghost predicate AlikeUnions(rule: Policy, a: UnionOut, b: UnionOut) {
    a.ok == b.ok && AlikeCells(a.cell, b.cell) && SamePolicy(rule, a.heap, b.heap)
  }

  lemma UnionAlike(rule: Policy, sch: Schema, sid: nat, i: nat, c: Cell, d: Cell, h: Heap, g: Heap)
    requires WfSchema(sch) && sid < |sch| && i < |sch[sid]| && AlikeCells(c, d) && SamePolicy(rule, h, g)
    ensures AlikeUnions(rule, ReleaseUnion(sch, sid, i, c, h), ReleaseUnion(sch, sid, i, d, g))
  {
    hide Alike, AlikeItems, AlikeStores, SamePolicy, ReleaseCell;
    Views(c.size, d.size);
    AlikeItself(Nil);
    var fs, was := sch[sid], Number(c.size);
    var j := if was > 0 then FirstMatch(fs, was, 0) else |fs|;
    if j < |fs| {
      assert WfMessage(sch, sid) && OkField(sch, sid, j);
      ReleaseCellAlike(rule, sch, fs[j], c.data, d.data, c.size, d.size, h, g);
    }
  }

  /** `decode_field` on alike cells. */
  lemma {:induction false} FieldAlike(rule: Policy, sch: Schema, sid: nat, i: nat, wire: nat, s: seq<Byte>, c: Cell,
                                      d: Cell, h: Heap,
                                      g: Heap)
    requires WfSchema(sch) && sid < |sch| && i < |sch[sid]| && AlikeCells(c, d) && SamePolicy(rule, h, g)
    ensures AlikeSteps(rule, FieldStep(sch, sid, i, wire, s, c, h), FieldStep(sch, sid, i, wire, s, d, g))
    decreases |s|, 6
  {
    hide AlikeCells, SamePolicy, ReleaseUnion, StaticStep, PointerStep;
    var f := sch[sid][i];
    assert WfMessage(sch, sid) && OkField(sch, sid, i);
    UnionAlike(rule, sch, sid, i, c, d, h, g);
    var u := if f.htype.OneOf? then ReleaseUnion(sch, sid, i, c, h) else UnionOut(true, c, h);
    var v := if f.htype.OneOf? then ReleaseUnion(sch, sid, i, d, g) else UnionOut(true, d, g);
    StaticAlike(rule, sch, f, wire, s, u.cell, v.cell, u.heap, v.heap);
    PointerAlike(rule, sch, f, wire, s, u.cell, v.cell, u.heap, v.heap);
  }

  // ------------------------------------------------------------------ messages

  ghost predicate AlikeRuns(rule: Policy, a: Run, b: Run) {
    && AlikeStores(a.store, b.store) && SamePolicy(rule, a.heap, b.heap)
    && a.fixed == b.fixed && a.fixedSize == b.fixedSize && a.seen == b.seen
  }

  ghost predicate AlikeRunOuts(rule: Policy, a: RunOut, b: RunOut) {
    a.ok == b.ok && a.stopped == b.stopped && a.rest == b.rest && AlikeRuns(rule, a.run, b.run)
  }

  ghost predicate AlikeMessages(rule: Policy, a: MessageOut, b: MessageOut) {
    a.ok == b.ok && a.rest == b.rest && AlikeStores(a.store, b.store) && SamePolicy(rule, a.heap, b.heap)
  }

  lemma RunCellAlike(rule: Policy, fs: seq<Field>, a: Run, b: Run, i: nat)
    requires AlikeRuns(rule, a, b)
    ensures AlikeCells(RunCell(fs, a, i), RunCell(fs, b, i))
  {
    hide Alike, AlikeStores, SamePolicy;
    CellsOf(fs, a.store, b.store, i);
    AlikeItself(Num(a.fixedSize));
  }

  lemma WrittenAlike(rule: Policy, fs: seq<Field>, a: Run, b: Run, i: nat, p: StepOut, q: StepOut)
    requires AlikeRuns(rule, a, b) && AlikeSteps(rule, p, q)
    ensures AlikeRuns(rule, WriteBack(fs, a, i, p.cell, p.heap), WriteBack(fs, b, i, q.cell, q.heap))
  {
    hide Alike, AlikeStores, AlikeItems, SamePolicy, PutCell;
    CellsPut(fs, a.store, b.store, i, p.cell, q.cell);
    Views(p.cell.size, q.cell.size);
  }

  lemma {:induction false} KnownAlike(rule: Policy, sch: Schema, sid: nat, i: nat, wire: nat, s: seq<Byte>, a: Run,
                                      b: Run)
    requires WfSchema(sch) && sid < |sch| && i < |sch[sid]| && AlikeRuns(rule, a, b)
    ensures AlikeRunOuts(rule, KnownRecord(sch, sid, i, wire, s, a), KnownRecord(sch, sid, i, wire, s, b))
    decreases |s|, 7
  {
    hide AlikeStores, AlikeCells, SamePolicy, FieldStep, RunCell, WriteBack;
    var fs := sch[sid];
    var a1 := (if FixedCount(fs[i]) then EnterFixed(a, i) else a).(seen := a.seen + Seen(fs, i));
    var b1 := (if FixedCount(fs[i]) then EnterFixed(b, i) else b).(seen := b.seen + Seen(fs, i));
    RunCellAlike(rule, fs, a1, b1, i);
    FieldAlike(rule, sch, sid, i, wire, s, RunCell(fs, a1, i), RunCell(fs, b1, i), a1.heap, b1.heap);
    WrittenAlike(rule, fs, a1, b1, i, FieldStep(sch, sid, i, wire, s, RunCell(fs, a1, i), a1.heap),
                 FieldStep(sch, sid, i, wire, s, RunCell(fs, b1, i), b1.heap));
  }

  lemma TerminatorAlike(rule: Policy, s: seq<Byte>, a: Run, b: Run)
    requires AlikeRuns(rule, a, b)
    ensures AlikeRunOuts(rule, TerminatorRecord(s, a), TerminatorRecord(s, b))
  {
    hide Alike, AlikeStores, SamePolicy, DecScalar, Look;
    Looked(a.store, b.store, 0);
    var x, y := Look(a.store, 0), Look(b.store, 0);
    ScalarAlike(LAST_FIELD, s, x, y);
    Updated(a.store, b.store, 0, DecScalar(LAST_FIELD, s, x).slot, DecScalar(LAST_FIELD, s, y).slot);
  }

  lemma {:induction false} RecordAlike(rule: Policy, sch: Schema, sid: nat, s: seq<Byte>, a: Run, b: Run)
    requires WfSchema(sch) && sid < |sch| && AlikeRuns(rule, a, b)
    ensures AlikeRunOuts(rule, Record(sch, sid, s, a), Record(sch, sid, s, b))
    decreases |s|, 8
  {
    hide AlikeRuns, KnownRecord, TerminatorRecord, SkipField;
    match DecodeTag(s)
    case Tag(number, wire, rest) =>
      TerminatorAlike(rule, rest, a, b);
      if FirstMatch(sch[sid], number, 0) < |sch[sid]| {
        KnownAlike(rule, sch, sid, FirstMatch(sch[sid], number, 0), wire, rest, a, b);
      }
    case _ =>
  }

  /** The message loop on alike runs. */
  lemma {:induction false} RecordsAlike(rule: Policy, sch: Schema, sid: nat, s: seq<Byte>, a: Run, b: Run)
    requires WfSchema(sch) && sid < |sch| && AlikeRuns(rule, a, b)
    ensures AlikeRunOuts(rule, Records(sch, sid, s, a), Records(sch, sid, s, b))
    decreases |s|, 9
  {
    hide AlikeRuns, Record;
    if s == [] {
    } else {
      RecordAlike(rule, sch, sid, s, a, b);
      var o, p := Record(sch, sid, s, a), Record(sch, sid, s, b);
      if o.ok && !o.stopped {
        RecordsAlike(rule, sch, sid, o.rest, o.run, p.run);
      }
    }
  }

  lemma {:induction false} NoInitAlike(rule: Policy, sch: Schema, sid: nat, s: seq<Byte>, a: Store, b: Store, h: Heap,
                                       g: Heap)
    requires WfSchema(sch) && sid < |sch| && AlikeStores(a, b) && SamePolicy(rule, h, g)
    ensures AlikeMessages(rule, DecodeNoInit(sch, sid, s, a, h), DecodeNoInit(sch, sid, s, b, g))
    decreases |s|, 10
  {
    hide AlikeStores, SamePolicy, Records, RequiredSeen;
    RecordsAlike(rule, sch, sid, s, Start(a, h), Start(b, g));
  }

  /** `pb_decode` does the same to alike structs, up to the names of the blocks. */
  lemma {:induction false} DecodeAlike(rule: Policy, sch: Schema, sid: nat, s: seq<Byte>, a: Store, b: Store, h: Heap,
                                       g: Heap)
    requires WfSchema(sch) && sid < |sch| && AlikeStores(a, b) && SamePolicy(rule, h, g)
    ensures AlikeMessages(rule, Decode(sch, sid, s, a, h), Decode(sch, sid, s, b, g))
    decreases |s|, 11
  {
    hide Alike, AlikeStores, AlikeItems, SamePolicy, DecodeNoInit, ReleaseStruct, SetDefaults;
    DefaultsAlike(sch, sid, a, b, |sch[sid]|);
    var a1, b1 := Initialised(sch, sid, a), Initialised(sch, sid, b);
    NoInitAlike(rule, sch, sid, s, a1, b1, h, g);
    var o, p := DecodeNoInit(sch, sid, s, a1, h), DecodeNoInit(sch, sid, s, b1, g);
    Structs(o.store, p.store);
    ReleaseStructAlike(rule, sch, sid, Sub(o.store), Sub(p.store), o.heap, p.heap);
    Views(ReleaseStruct(sch, sid, Sub(o.store), o.heap).slot, ReleaseStruct(sch, sid, Sub(p.store), p.heap).slot);
  }
}
