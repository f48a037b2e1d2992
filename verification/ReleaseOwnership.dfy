/** pb_release frees every block it reaches in a struct, exactly once, and nulls the
    pointers to them. */
module ReleaseOwnership {
  import opened Descriptor
  import opened Allocator
  import opened Release
  import opened StaticOnly
  import opened Ownership
  import opened UnionOwnership

  /** Nothing left for a release to reach, and pointers that could be followed are
      null. */
  predicate EmptyCell(sch: Schema, f: Field, data: Slot, size: Slot)
    requires WfSchema(sch) && KnownRef(sch, f)
  {
    && SoundCell(sch, f, data, size) && IdsCell(Reached, sch, f, data, size) == multiset{}
    && (f.atype.Pointer? && !Inactive(f, size) ==> data.Nil?)
  }

  predicate EmptyField(sch: Schema, sid: nat, m: Store, i: nat)
    requires WfSchema(sch) && sid < |sch| && i < |sch[sid]|
  {
    assert WfMessage(sch, sid) && OkField(sch, sid, i);
    && DataAt(sch[sid], i) in m
    && SoundWhich(sch[sid], i, CellOf(sch[sid], m, i).size)
    && EmptyCell(sch, sch[sid][i], m[DataAt(sch[sid], i)], CellOf(sch[sid], m, i).size)
  }

  predicate EmptyStruct(sch: Schema, sid: nat, m: Store)
    requires WfSchema(sch) && sid < |sch|
  {
    forall i {:trigger EmptyField(sch, sid, m, i)} :: 0 <= i < |sch[sid]| ==> EmptyField(sch, sid, m, i)
  }

  lemma {:induction false} EmptyOwnsNothing(sch: Schema, sid: nat, m: Store, n: nat)
    requires WfSchema(sch) && sid < |sch| && n <= |sch[sid]| && EmptyStruct(sch, sid, m)
    ensures IdsFields(Reached, sch, sid, Sub(m), n) == multiset{}
  {
    if n == 0 {
    } else {
      EmptyOwnsNothing(sch, sid, m, n - 1);
      assert EmptyField(sch, sid, m, n - 1);
      assert WfMessage(sch, sid) && OkField(sch, sid, n - 1);
    }
  }

  lemma EmptyIsSound(sch: Schema, sid: nat, m: Store)
    requires WfSchema(sch) && sid < |sch| && EmptyStruct(sch, sid, m)
    ensures SoundStruct(sch, sid, Sub(m)) && IdsStruct(Reached, sch, sid, Sub(m)) == multiset{}
  {
    EmptyOwnsNothing(sch, sid, m, |sch[sid]|);
    forall i | 0 <= i < |sch[sid]| ensures SoundField(sch, sid, Sub(m), i) {
      assert EmptyField(sch, sid, m, i);
    }
  }

  // -------------------------------------------------------------------- arrays

  lemma EntriesStep(w: View, sch: Schema, f: Field, cells: seq<Slot>, n: nat)
    requires WfSchema(sch) && KnownRef(sch, f) && n < |cells|
    ensures IdsEntries(w, sch, f, cells, n + 1) == IdsEntries(w, sch, f, cells, n) + IdsDest(w, sch, f, cells[n])
  {
    hide IdsDest;
  }

  lemma NoEntries(w: View, sch: Schema, f: Field, cells: seq<Slot>)
    requires WfSchema(sch) && KnownRef(sch, f)
    ensures IdsEntries(w, sch, f, cells, 0) == multiset{}
  {
  }

  lemma {:induction false} EntriesFromFront(w: View, sch: Schema, f: Field, cells: seq<Slot>, n: nat)
    requires WfSchema(sch) && KnownRef(sch, f) && 1 <= n <= |cells|
    ensures IdsEntries(w, sch, f, cells, n) == IdsDest(w, sch, f, cells[0]) + IdsEntries(w, sch, f, cells[1..], n - 1)
    decreases n
  {
    hide IdsDest, IdsEntries, WfSchema, KnownRef;
    EntriesStep(w, sch, f, cells, n - 1);
    if n == 1 {
      NoEntries(w, sch, f, cells);
      NoEntries(w, sch, f, cells[1..]);
      AddNothing(IdsDest(w, sch, f, cells[0]));
    } else {
      EntriesFromFront(w, sch, f, cells, n - 1);
      EntriesStep(w, sch, f, cells[1..], n - 2);
      Regroup(IdsDest(w, sch, f, cells[0]), IdsEntries(w, sch, f, cells[1..], n - 2), IdsDest(w, sch, f, cells[n - 1]));
    }
  }

  lemma {:induction false} NoEntryBlocks(w: View, sch: Schema, f: Field, cells: seq<Slot>, n: int)
    requires WfSchema(sch) && KnownRef(sch, f) && !OwnBuffer(f) && !f.ltype.SubMessage?
    ensures IdsEntries(w, sch, f, cells, n) == multiset{}
    decreases n
  {
    if n <= 0 {
    } else {
      NoEntryBlocks(w, sch, f, cells, n - 1);
    }
  }

  lemma {:induction false} FreeItemsOwn(sch: Schema, f: Field, cells: seq<Slot>, n: nat, h: Heap, rest: multiset<nat>)
    requires WfSchema(sch) && KnownRef(sch, f) && OwnBuffer(f) && SoundEntries(sch, f, cells, n) && Bounded(h)
    ensures Freed(h, IdsEntries(Reached, sch, f, cells, n), FreeItems(cells, n, h).heap, rest)
    decreases n
  {
    hide Balanced, Bounded, IdsEntries, Free;
    if n == 0 {
      NoEntries(Reached, sch, f, cells);
      AddNothing(rest);
    } else {
      EntriesFromFront(Reached, sch, f, cells, n);
      var tail := IdsEntries(Reached, sch, f, cells[1..], n - 1);
      assert SoundDest(sch, f, cells[0]) && IdsDest(Reached, sch, f, cells[0]) == IdsPtr(cells[0]);
      Aside(rest, IdsPtr(cells[0]), tail);
      FreeExactly(h, cells[0], rest + tail);
      FreeItemsOwn(sch, f, cells[1..], n - 1, Free(h, cells[0]), rest);
    }
  }

  /** From `h` to `g` exactly the blocks `ids` were freed: `g` is in order if and only
      if `h` was, with each of these blocks live once. */
  ghost predicate Freed(h: Heap, ids: multiset<nat>, g: Heap, rest: multiset<nat>) {
    Bounded(g) && (Balanced(g, rest) <==> Balanced(h, rest + ids))
  }

  lemma {:induction false} ReleaseItemsOwn(sch: Schema, f: Field, cells: seq<Slot>, n: nat, h: Heap,
                                           rest: multiset<nat>)
    requires WfSchema(sch) && KnownRef(sch, f) && f.ltype.SubMessage? && f.ptr.Fields?
    requires SoundEntries(sch, f, cells, n) && Bounded(h)
    ensures Freed(h, IdsEntries(Reached, sch, f, cells, n), ReleaseItems(sch, f.ptr.id, cells, n, h).heap, rest)
    decreases cells, 0
  {
    hide Balanced, Bounded, IdsEntries, IdsFields, ReleaseStruct, SoundStruct, WfSchema;
    if n == 0 {
      NoEntries(Reached, sch, f, cells);
      AddNothing(rest);
    } else {
      EntriesFromFront(Reached, sch, f, cells, n);
      var tail := IdsEntries(Reached, sch, f, cells[1..], n - 1);
      assert SoundDest(sch, f, cells[0])
             && IdsDest(Reached, sch, f, cells[0]) == IdsStruct(Reached, sch, f.ptr.id, cells[0]);
      Aside(rest, IdsStruct(Reached, sch, f.ptr.id, cells[0]), tail);
      ReleaseStructOwn(sch, f.ptr.id, cells[0], h, rest + tail);
      ReleaseItemsOwn(sch, f, cells[1..], n - 1, ReleaseStruct(sch, f.ptr.id, cells[0], h).heap, rest);
    }
  }

  // -------------------------------------------------------------------- fields

  /** A pointer field: what its block holds, then the block itself. */
  lemma {:induction false} ReleaseBlockOwn(sch: Schema, f: Field, data: Slot, size: Slot, h: Heap, rest: multiset<nat>)
    requires WfSchema(sch) && KnownRef(sch, f) && (f.ltype.SubMessage? ==> f.ptr.Fields?)
    requires f.atype.Pointer? && !Inactive(f, size) && SoundCell(sch, f, data, size) && data.Block?
    requires (f.htype.Repeated? || !OwnBuffer(f)) && Bounded(h)
    ensures Freed(h, IdsCell(Reached, sch, f, data, size), ReleaseCell(sch, f, data, size, h).heap, rest)
    decreases data, 2
  {
    hide Balanced, Bounded, Free, IdsEntries, SoundEntries;
    var n := if f.htype.Repeated? then Number(size) else 1;
    var own := rest + multiset{data.id};
    var inner := IdsEntries(Reached, sch, f, data.cells, n);
    Regroup(rest, multiset{data.id}, inner);
    if f.ltype.SubMessage? {
      ReleaseItemsOwn(sch, f, data.cells, n, h, own);
      var r := ReleaseItems(sch, f.ptr.id, data.cells, n, h);
      FreeExactly(r.heap, Block(data.id, r.items), rest);
    } else if OwnBuffer(f) {
      FreeItemsOwn(sch, f, data.cells, n, h, own);
      var r := FreeItems(data.cells, n, h);
      FreeExactly(r.heap, Block(data.id, r.items), rest);
    } else {
      NoEntryBlocks(Reached, sch, f, data.cells, n);
      AddNothing(own);
      FreeExactly(h, data, rest);
    }
  }

  /** `pb_release_single_field`: the blocks of the field are freed, no others. */
  lemma {:induction false} ReleaseCellOwn(sch: Schema, f: Field, data: Slot, size: Slot, h: Heap, rest: multiset<nat>)
    requires WfSchema(sch) && KnownRef(sch, f) && (f.ltype.SubMessage? ==> f.ptr.Fields?)
    requires !f.atype.Callback? && SoundCell(sch, f, data, size) && Bounded(h)
    ensures Freed(h, IdsCell(Reached, sch, f, data, size), ReleaseCell(sch, f, data, size, h).heap, rest)
    decreases data, 3
  {
    if Inactive(f, size) {
      AddNothing(rest);
    } else if f.atype.Static? {
      ReleaseStaticOwn(sch, f, data, size, h, rest);
    } else if data.Block? && (f.htype.Repeated? || !OwnBuffer(f)) {
      ReleaseBlockOwn(sch, f, data, size, h, rest);
    } else {
      assert data.Nil? ==> rest + IdsCell(Reached, sch, f, data, size) == rest;
      FreeExactly(h, data, rest);
    }
  }

  /** The entries of a static array that are in use. */
  lemma InUse(sch: Schema, f: Field, data: Slot, size: Slot)
    requires WfSchema(sch) && KnownRef(sch, f) && PointerArray(sch, f) && SoundCell(sch, f, data, size)
    ensures SoundArray(sch, f, data, size) && 0 <= SubCount(f, size) <= f.arraySize
    ensures SoundEntries(sch, f, data.items, SubCount(f, size))
  {
    hide SoundDest;
    assert SoundArray(sch, f, data, size);
  }

  lemma {:induction false} ReleaseStaticOwn(sch: Schema, f: Field, data: Slot, size: Slot, h: Heap, rest: multiset<nat>)
    requires WfSchema(sch) && KnownRef(sch, f) && (f.ltype.SubMessage? ==> f.ptr.Fields?)
    requires f.atype.Static? && !Inactive(f, size) && SoundCell(sch, f, data, size) && Bounded(h)
    ensures Freed(h, IdsCell(Reached, sch, f, data, size), ReleaseCell(sch, f, data, size, h).heap, rest)
    decreases data, 2
  {
    hide Balanced, Bounded;
    if PointerArray(sch, f) {
      InUse(sch, f, data, size);
      ReleaseItemsOwn(sch, f, data.items, SubCount(f, size), h, rest);
    } else if f.htype.Repeated? {
      if f.ltype.SubMessage? {
        ReleaseCellStatic(sch, f, data, size, h, h);
      }
      AddNothing(rest);
    } else {
      assert IdsCell(Reached, sch, f, data, size) == IdsDest(Reached, sch, f, data) && SoundDest(sch, f, data);
      if f.ltype.SubMessage? {
        ReleaseStructOwn(sch, f.ptr.id, data, h, rest);
      } else {
        AddNothing(rest);
      }
    }
  }

  // ------------------------------------------------------------------- structs

  lemma {:induction false} ReleaseFieldsOwn(sch: Schema, sid: nat, src: Slot, h: Heap, rest: multiset<nat>, n: nat)
    requires WfSchema(sch) && sid < |sch| && n <= |sch[sid]| && SoundStruct(sch, sid, src) && Bounded(h)
    ensures Freed(h, IdsFields(Reached, sch, sid, src, n), ReleaseFields(sch, sid, src, h, n).heap, rest)
    decreases src, 0, n
  {
    hide Balanced, Bounded;
    if n == 0 {
      AddNothing(rest);
    } else {
      var fs := sch[sid];
      assert WfMessage(sch, sid) && OkField(sch, sid, n - 1);
      assert SoundField(sch, sid, src, n - 1);
      var data, size := src.members[DataAt(fs, n - 1)], CellOf(fs, src.members, n - 1).size;
      var mine := IdsCell(Reached, sch, fs[n - 1], data, size);
      Aside(rest, IdsFields(Reached, sch, sid, src, n - 1), mine);
      Regroup(rest, IdsFields(Reached, sch, sid, src, n - 1), mine);
      ReleaseFieldsOwn(sch, sid, src, h, rest + mine, n - 1);
      if Inactive(fs[n - 1], size) {
        AddNothing(rest);
      } else {
        ReleaseCellOwn(sch, fs[n - 1], data, size, ReleaseFields(sch, sid, src, h, n - 1).heap, rest);
      }
    }
  }

  /** `pb_release` frees exactly the blocks it reaches: what is left is in order if
      and only if each of them was live, once. */
  lemma {:induction false} ReleaseStructOwn(sch: Schema, sid: nat, src: Slot, h: Heap, rest: multiset<nat>)
    requires WfSchema(sch) && sid < |sch| && SoundStruct(sch, sid, src) && Bounded(h)
    ensures Freed(h, IdsStruct(Reached, sch, sid, src), ReleaseStruct(sch, sid, src, h).heap, rest)
    decreases src, 1
  {
    ReleaseFieldsOwn(sch, sid, src, h, rest, |sch[sid]|);
  }

  // ----------------------------------------------- reached is part of stored

  lemma {:induction false} ReachedDest(sch: Schema, f: Field, x: Slot)
    requires WfSchema(sch) && KnownRef(sch, f)
    ensures IdsDest(Reached, sch, f, x) <= IdsDest(Stored, sch, f, x)
    decreases x, 1
  {
    if !OwnBuffer(f) && f.ltype.SubMessage? && f.ptr.Fields? {
      ReachedFields(sch, f.ptr.id, x, |sch[f.ptr.id]|);
    }
  }

  lemma {:induction false} ReachedEntries(sch: Schema, f: Field, cells: seq<Slot>, n: int, all: int)
    requires WfSchema(sch) && KnownRef(sch, f) && n <= all
    ensures IdsEntries(Reached, sch, f, cells, n) <= IdsEntries(Stored, sch, f, cells, all)
    decreases cells, 0, all
  {
    hide IdsDest;
    if all <= 0 {
    } else {
      ReachedEntries(sch, f, cells, if n < all then n else n - 1, all - 1);
      if all <= |cells| {
        ReachedDest(sch, f, cells[all - 1]);
      }
    }
  }

  lemma {:induction false} ReachedCell(sch: Schema, f: Field, data: Slot, size: Slot)
    requires WfSchema(sch) && KnownRef(sch, f)
    ensures IdsCell(Reached, sch, f, data, size) <= IdsCell(Stored, sch, f, data, size)
    decreases data, 2
  {
    hide IdsEntries, IdsDest;
    if f.atype.Static? && !f.htype.Repeated? {
      ReachedDest(sch, f, data);
    } else if f.atype.Static? && data.Arr? {
      ReachedEntries(sch, f, data.items, SubCount(f, size), f.arraySize);
    } else if data.Block? {
      var n := if f.htype.Repeated? then Number(size) else 1;
      ReachedEntries(sch, f, data.cells, n, n);
    }
  }

  /** What a release reaches is among what is stored. */
  lemma {:induction false} ReachedFields(sch: Schema, sid: nat, src: Slot, n: nat)
    requires WfSchema(sch) && sid < |sch| && n <= |sch[sid]|
    ensures IdsFields(Reached, sch, sid, src, n) <= IdsFields(Stored, sch, sid, src, n)
    decreases src, 0, n
  {
    hide IdsCell;
    if n == 0 {
    } else {
      ReachedFields(sch, sid, src, n - 1);
      assert WfMessage(sch, sid) && OkField(sch, sid, n - 1);
      if src.Sub? && DataAt(sch[sid], n - 1) in src.members {
        ReachedCell(sch, sch[sid][n - 1], src.members[DataAt(sch[sid], n - 1)],
                    CellOf(sch[sid], src.members, n - 1).size);
      }
    }
  }

  // ------------------------------------------------------------ what is left

  /** What is stored afterwards was stored before, and has not been released. */
  predicate Kept(after: multiset<nat>, released: multiset<nat>, before: multiset<nat>) {
    after + released <= before
  }

  lemma KeptSums(a: multiset<nat>, r: multiset<nat>, b: multiset<nat>, c: multiset<nat>, q: multiset<nat>,
                 d: multiset<nat>)
    requires Kept(a, r, b) && Kept(c, q, d)
    ensures Kept(a + c, r + q, b + d)
  {
    assert (a + c) + (r + q) == (a + r) + (c + q);
  }

  predicate KeptCell(sch: Schema, f: Field, data: Slot, size: Slot, c: Cell)
    requires WfSchema(sch) && KnownRef(sch, f)
  {
    Kept(IdsCell(Stored, sch, f, c.data, c.size), IdsCell(Reached, sch, f, data, size),
         IdsCell(Stored, sch, f, data, size))
  }

  /** A released field has nothing left to release, its pointer is null, and what its
      storage still holds was out of reach before. */
  lemma {:induction false} ReleaseCellEmpty(sch: Schema, f: Field, data: Slot, size: Slot, h: Heap)
    requires WfSchema(sch) && KnownRef(sch, f) && (f.ltype.SubMessage? ==> f.ptr.Fields?)
    requires !f.atype.Callback? && SoundCell(sch, f, data, size)
    ensures var r := ReleaseCell(sch, f, data, size, h);
            && EmptyCell(sch, f, r.cell.data, r.cell.size) && (f.htype.OneOf? ==> r.cell.size == size)
            && KeptCell(sch, f, data, size, r.cell)
    decreases data, 3
  {
    ReachedCell(sch, f, data, size);
    if PointerArray(sch, f) {
      ReleaseArrayEmpty(sch, f, data, size, h);
    } else if !Inactive(f, size) && f.atype.Static? && !f.htype.Repeated? && f.ltype.SubMessage? {
      ReleaseSubEmpty(sch, f, data, size, h);
    } else {
      ReleasePlainEmpty(sch, f, data, size, h);
    }
  }

  /** A struct inside the struct. */
  lemma {:induction false} ReleaseSubEmpty(sch: Schema, f: Field, data: Slot, size: Slot, h: Heap)
    requires WfSchema(sch) && KnownRef(sch, f) && f.ltype.SubMessage? && f.ptr.Fields? && SoundCell(sch, f, data, size)
    requires !Inactive(f, size) && f.atype.Static? && !f.htype.Repeated?
    ensures var r := ReleaseCell(sch, f, data, size, h);
            EmptyCell(sch, f, r.cell.data, r.cell.size) && r.cell.size == size && KeptCell(sch, f, data, size, r.cell)
    decreases data, 2
  {
    hide Kept, IdsFields, SoundStruct, EmptyStruct, SoundCell, IdsCell;
    var r := ReleaseStruct(sch, f.ptr.id, data, h).slot;
    SubCell(sch, f, data, size);
    SubCell(sch, f, r, size);
    ReleaseStructEmpty(sch, f.ptr.id, data, h);
    EmptyIsSound(sch, f.ptr.id, r.members);
  }

  lemma SubCell(sch: Schema, f: Field, data: Slot, size: Slot)
    requires WfSchema(sch) && KnownRef(sch, f) && f.ltype.SubMessage? && f.ptr.Fields?
    requires !Inactive(f, size) && f.atype.Static? && !f.htype.Repeated?
    ensures SoundCell(sch, f, data, size) <==> SoundStruct(sch, f.ptr.id, data)
    ensures SoundStruct(sch, f.ptr.id, data) ==> data.Sub?
    ensures IdsCell(Stored, sch, f, data, size) == IdsStruct(Stored, sch, f.ptr.id, data)
    ensures IdsCell(Reached, sch, f, data, size) == IdsStruct(Reached, sch, f.ptr.id, data)
  {
  }

  /** Pointers are nulled, anything else owns nothing. */
  lemma ReleasePlainEmpty(sch: Schema, f: Field, data: Slot, size: Slot, h: Heap)
    requires WfSchema(sch) && KnownRef(sch, f) && (f.ltype.SubMessage? ==> f.ptr.Fields?) && !f.atype.Callback?
    requires SoundCell(sch, f, data, size) && !PointerArray(sch, f)
    requires Inactive(f, size) || f.atype.Pointer? || f.htype.Repeated? || !f.ltype.SubMessage?
    requires IdsCell(Reached, sch, f, data, size) <= IdsCell(Stored, sch, f, data, size)
    ensures var r := ReleaseCell(sch, f, data, size, h);
            && EmptyCell(sch, f, r.cell.data, r.cell.size) && (f.htype.OneOf? ==> r.cell.size == size)
            && KeptCell(sch, f, data, size, r.cell)
  {
    hide ReleaseCell, SoundCell, IdsCell;
    if Inactive(f, size) {
      ReleaseInactive(sch, f, data, size, h);
    } else if f.atype.Pointer? {
      ReleasePointerEmpty(sch, f, data, size, h);
    } else {
      ReleaseBare(sch, f, data, size, h);
    }
  }

  lemma ReleaseInactive(sch: Schema, f: Field, data: Slot, size: Slot, h: Heap)
    requires WfSchema(sch) && KnownRef(sch, f) && SoundCell(sch, f, data, size) && Inactive(f, size)
    ensures ReleaseCell(sch, f, data, size, h).cell == Cell(data, size)
    ensures EmptyCell(sch, f, data, size) && KeptCell(sch, f, data, size, Cell(data, size))
  {
  }

  lemma ReleasePointerEmpty(sch: Schema, f: Field, data: Slot, size: Slot, h: Heap)
    requires WfSchema(sch) && KnownRef(sch, f) && SoundCell(sch, f, data, size)
    requires f.atype.Pointer? && !Inactive(f, size)
    requires IdsCell(Reached, sch, f, data, size) <= IdsCell(Stored, sch, f, data, size)
    ensures var r := ReleaseCell(sch, f, data, size, h);
            && EmptyCell(sch, f, r.cell.data, r.cell.size) && (f.htype.OneOf? ==> r.cell.size == size)
            && KeptCell(sch, f, data, size, r.cell)
  {
    hide ReleaseSubs, FreeEntries, Free;
    var r := ReleaseCell(sch, f, data, size, h).cell;
    assert r == Cell(Nil, if f.htype.Repeated? then Num(0) else size);
    NullOwnsNothing(sch, f, r.size);
  }

  lemma NullOwnsNothing(sch: Schema, f: Field, size: Slot)
    requires WfSchema(sch) && KnownRef(sch, f) && f.atype.Pointer? && !Inactive(f, size)
    requires f.htype.Repeated? ==> size == Num(0)
    ensures EmptyCell(sch, f, Nil, size) && IdsCell(Stored, sch, f, Nil, size) == multiset{}
  {
  }

  /** Static members that hold no struct, and arrays of what holds no pointer. */
  lemma ReleaseBare(sch: Schema, f: Field, data: Slot, size: Slot, h: Heap)
    requires WfSchema(sch) && KnownRef(sch, f) && (f.ltype.SubMessage? ==> f.ptr.Fields?) && f.atype.Static?
    requires SoundCell(sch, f, data, size) && !PointerArray(sch, f) && !Inactive(f, size)
    requires f.htype.Repeated? || !f.ltype.SubMessage?
    ensures var r := ReleaseCell(sch, f, data, size, h);
            EmptyCell(sch, f, r.cell.data, r.cell.size) && r.cell.size == size && KeptCell(sch, f, data, size, r.cell)
  {
    hide ReleaseSubs, FreeEntries, Free;
    var r := ReleaseCell(sch, f, data, size, h).cell;
    PlainOwnsNothing(sch, f, data, size);
    PlainOwnsNothing(sch, f, r.data, size);
  }

  lemma PlainOwnsNothing(sch: Schema, f: Field, data: Slot, size: Slot)
    requires WfSchema(sch) && KnownRef(sch, f) && f.atype.Static? && !PointerArray(sch, f) && !Inactive(f, size)
    requires f.htype.Repeated? || !f.ltype.SubMessage?
    ensures SoundCell(sch, f, data, size)
    ensures IdsCell(Stored, sch, f, data, size) == IdsCell(Reached, sch, f, data, size) == multiset{}
  {
    hide IdsEntries;
    assert !f.htype.Repeated? ==> SoundDest(sch, f, data) && IdsDest(Stored, sch, f, data) == multiset{};
    assert !f.htype.Repeated? ==> IdsDest(Reached, sch, f, data) == multiset{};
  }

  lemma {:induction false} EmptyEntries(w: View, sch: Schema, f: Field, items: seq<Slot>, n: int)
    requires WfSchema(sch) && KnownRef(sch, f) && n <= |items|
    requires forall k :: 0 <= k < n ==> IdsDest(w, sch, f, items[k]) == multiset{}
    ensures IdsEntries(w, sch, f, items, n) == multiset{}
    decreases n
  {
    hide IdsDest;
    if n <= 0 {
    } else {
      EmptyEntries(w, sch, f, items, n - 1);
    }
  }

  /** An entry of a released array: released when it was in use, untouched otherwise. */
  predicate KeptEntry(sch: Schema, f: Field, was: seq<Slot>, now: seq<Slot>, n: int, k: nat)
    requires WfSchema(sch) && KnownRef(sch, f) && k < |was| && k < |now|
  {
    if k < n then
      && SoundDest(sch, f, now[k]) && IdsDest(Reached, sch, f, now[k]) == multiset{}
      && Kept(IdsDest(Stored, sch, f, now[k]), IdsDest(Reached, sch, f, was[k]), IdsDest(Stored, sch, f, was[k]))
    else now[k] == was[k]
  }

  lemma {:induction false} ReleaseItemsEmpty(sch: Schema, f: Field, items: seq<Slot>, n: nat, h: Heap, k: nat)
    requires WfSchema(sch) && KnownRef(sch, f) && f.ltype.SubMessage? && f.ptr.Fields? && !OwnBuffer(f)
    requires n <= |items| && k < |items| && SoundEntries(sch, f, items, n)
    ensures var r := ReleaseItems(sch, f.ptr.id, items, n, h).items;
            |r| == |items| && KeptEntry(sch, f, items, r, n, k)
    decreases items, 0
  {
    hide Kept;
    if n == 0 {
    } else {
      var first := ReleaseStruct(sch, f.ptr.id, items[0], h);
      assert SoundDest(sch, f, items[0]);
      if |items| > 1 {
        ReleaseItemsEmpty(sch, f, items[1..], n - 1, first.heap, if k > 0 then k - 1 else 0);
      }
      if k == 0 {
        ReleaseStructEmpty(sch, f.ptr.id, items[0], h);
        EmptyIsSound(sch, f.ptr.id, first.slot.members);
      }
    }
  }

  lemma {:induction false} KeptEntries(sch: Schema, f: Field, was: seq<Slot>, now: seq<Slot>, n: nat, all: nat)
    requires WfSchema(sch) && KnownRef(sch, f) && all <= |was| == |now|
    requires forall k {:trigger KeptEntry(sch, f, was, now, n, k)} :: 0 <= k < all ==> KeptEntry(sch, f, was, now, n, k)
    ensures Kept(IdsEntries(Stored, sch, f, now, all), IdsEntries(Reached, sch, f, was, if n < all then n else all),
                 IdsEntries(Stored, sch, f, was, all))
    decreases all
  {
    hide IdsDest, SoundDest;
    if all == 0 {
    } else {
      KeptEntries(sch, f, was, now, n, all - 1);
      assert KeptEntry(sch, f, was, now, n, all - 1);
      var k := all - 1;
      KeptSums(IdsEntries(Stored, sch, f, now, k), IdsEntries(Reached, sch, f, was, if n < k then n else k),
               IdsEntries(Stored, sch, f, was, k), IdsDest(Stored, sch, f, now[k]),
               if k < n then IdsDest(Reached, sch, f, was[k]) else multiset{}, IdsDest(Stored, sch, f, was[k]));
    }
  }

  /** A released static array keeps its count. */
  lemma {:induction false} ReleaseArrayEmpty(sch: Schema, f: Field, data: Slot, size: Slot, h: Heap)
    requires WfSchema(sch) && KnownRef(sch, f) && PointerArray(sch, f) && SoundArray(sch, f, data, size)
    ensures var r := ReleaseCell(sch, f, data, size, h);
            EmptyCell(sch, f, r.cell.data, r.cell.size) && KeptCell(sch, f, data, size, r.cell)
    decreases data, 2
  {
    var n := SubCount(f, size);
    var r := ReleaseItems(sch, f.ptr.id, data.items, n, h).items;
    assert ReleaseCell(sch, f, data, size, h).cell == Cell(Arr(r), size);
    ReleasedLength(sch, f.ptr.id, data.items, n, h);
    forall k | 0 <= k < |r| ensures KeptEntry(sch, f, data.items, r, n, k) {
      ReleaseItemsEmpty(sch, f, data.items, n, h, k);
    }
    ReleasedArray(sch, f, data.items, r, size);
  }

  lemma ReleasedArray(sch: Schema, f: Field, was: seq<Slot>, now: seq<Slot>, size: Slot)
    requires WfSchema(sch) && KnownRef(sch, f) && PointerArray(sch, f) && SoundArray(sch, f, Arr(was), size)
    requires |now| == |was|
    requires forall k {:trigger KeptEntry(sch, f, was, now, SubCount(f, size), k)} ::
               0 <= k < |now| ==> KeptEntry(sch, f, was, now, SubCount(f, size), k)
    ensures EmptyCell(sch, f, Arr(now), size) && KeptCell(sch, f, Arr(was), size, Cell(Arr(now), size))
  {
    hide IdsDest, SoundDest, IdsEntries, Kept;
    var n := SubCount(f, size);
    forall k | 0 <= k < |now|
      ensures SoundDest(sch, f, now[k]) && (k < n ==> IdsDest(Reached, sch, f, now[k]) == multiset{})
    {
      assert KeptEntry(sch, f, was, now, n, k);
      assert SoundDest(sch, f, was[k]);
    }
    EmptyEntries(Reached, sch, f, now, n);
    KeptEntries(sch, f, was, now, n, f.arraySize);
    assert SoundArray(sch, f, Arr(now), size);
  }

  lemma {:induction false} ReleasedLength(sch: Schema, id: nat, items: seq<Slot>, n: int, h: Heap)
    requires WfSchema(sch) && id < |sch|
    ensures |ReleaseItems(sch, id, items, n, h).items| == |items|
    decreases |items|
  {
    if n <= 0 || items == [] {
    } else {
      ReleasedLength(sch, id, items[1..], n - 1, ReleaseStruct(sch, id, items[0], h).heap);
    }
  }

  /** How far `pb_release` has got: fields before `n` are empty, later ones and the
      which_ members are untouched. */
  predicate Track(sch: Schema, sid: nat, src: Slot, m: Store, n: nat, i: nat)
    requires WfSchema(sch) && sid < |sch| && i < |sch[sid]|
  {
    var was, now := CellOf(sch[sid], Members(src), i), CellOf(sch[sid], m, i);
    && DataAt(sch[sid], i) in m
    && (sch[sid][i].htype.OneOf? ==> now.size == was.size && (Number(was.size) == 0 ==> now.data == was.data))
    && (!sch[sid][i].htype.OneOf? && i >= n ==> now == was)
    && (i < n ==> EmptyField(sch, sid, m, i) && KeptField(sch, sid, src, m, i))
  }

  predicate KeptField(sch: Schema, sid: nat, src: Slot, m: Store, i: nat)
    requires WfSchema(sch) && sid < |sch| && i < |sch[sid]|
  {
    Kept(IdsField(Stored, sch, sid, m, i), IdsField(Reached, sch, sid, Members(src), i),
         IdsField(Stored, sch, sid, Members(src), i))
  }

  lemma InactiveIsEmpty(sch: Schema, sid: nat, src: Slot, m: Store, n: nat, i: nat)
    requires WfSchema(sch) && sid < |sch| && i < |sch[sid]|
    requires SoundField(sch, sid, src, i) && Track(sch, sid, src, m, n, i)
    requires Inactive(sch[sid][i], CellOf(sch[sid], src.members, i).size)
    ensures EmptyField(sch, sid, m, i)
  {
    assert WfMessage(sch, sid) && OkField(sch, sid, i);
  }

  /** Releasing the current member of a union leaves its siblings inactive. */
  lemma SiblingIsEmpty(sch: Schema, sid: nat, src: Slot, m: Store, j: nat, c: Cell, n: nat, i: nat)
    requires WfSchema(sch) && sid < |sch| && i < |sch[sid]| && j < |sch[sid]| && i != j
    requires UnionHead(sch[sid], i) == UnionHead(sch[sid], j) && SoundField(sch, sid, src, i)
    requires !Inactive(sch[sid][j], CellOf(sch[sid], src.members, j).size)
    requires c.size == CellOf(sch[sid], src.members, j).size
    requires Track(sch, sid, src, m, n, i)
    ensures Track(sch, sid, src, PutCell(sch[sid], m, j, c), n, i)
  {
    var fs := sch[sid];
    assert WfMessage(sch, sid) && OkField(sch, sid, i) && OkField(sch, sid, j);
    OneOfHead(fs, i, j);
    UnionCell(sch, sid, src.members, i, j);
    PutThenGet(sch, sid, m, j, c);
    UnionCell(sch, sid, PutCell(fs, m, j, c), i, j);
    assert TagsDiffer(fs, if i < j then i else j, if i < j then j else i);
  }

  lemma {:induction false} ReleaseProgress(sch: Schema, sid: nat, src: Slot, h: Heap, n: nat, i: nat)
    requires WfSchema(sch) && sid < |sch| && n <= |sch[sid]| && i < |sch[sid]| && SoundStruct(sch, sid, src)
    ensures Track(sch, sid, src, ReleaseFields(sch, sid, src, h, n).store, n, i)
    decreases src, 0, n
  {
    assert SoundField(sch, sid, src, i);
    if n == 0 {
    } else {
      var fs, j := sch[sid], n - 1;
      var before := ReleaseFields(sch, sid, src, h, j);
      ReleaseProgress(sch, sid, src, h, j, i);
      ReleaseProgress(sch, sid, src, h, j, j);
      assert WfMessage(sch, sid) && OkField(sch, sid, j) && SoundField(sch, sid, src, j);
      var data, size := src.members[DataAt(fs, j)], CellOf(fs, src.members, j).size;
      if Inactive(fs[j], size) {
        InactiveIsEmpty(sch, sid, src, before.store, j, j);
      } else {
        var r := ReleaseCell(sch, fs[j], data, size, before.heap);
        ReleaseCellEmpty(sch, fs[j], data, size, before.heap);
        ReleaseStep(sch, sid, src, before.store, j, r.cell, i);
      }
    }
  }

  lemma ReleaseStep(sch: Schema, sid: nat, src: Slot, m: Store, j: nat, c: Cell, i: nat)
    requires WfSchema(sch) && sid < |sch| && j < |sch[sid]| && i < |sch[sid]| && SoundStruct(sch, sid, src)
    requires KnownRef(sch, sch[sid][j]) && EmptyCell(sch, sch[sid][j], c.data, c.size)
    requires var was := CellOf(sch[sid], src.members, j); KeptCell(sch, sch[sid][j], was.data, was.size, c)
    requires !Inactive(sch[sid][j], CellOf(sch[sid], src.members, j).size)
    requires sch[sid][j].htype.OneOf? ==> c.size == CellOf(sch[sid], src.members, j).size
    requires Track(sch, sid, src, m, j, i) && Track(sch, sid, src, m, j, j)
    ensures Track(sch, sid, src, PutCell(sch[sid], m, j, c), j + 1, i)
  {
    var fs := sch[sid];
    assert WfMessage(sch, sid) && OkField(sch, sid, j);
    assert SoundField(sch, sid, src, i) && SoundField(sch, sid, src, j);
    if i == j {
      PutThenGet(sch, sid, m, j, c);
      NormalIsEmpty(sch, sid, j, c);
    } else if UnionHead(fs, i) == UnionHead(fs, j) {
      OneOfHead(fs, i, j);
      SiblingIsEmpty(sch, sid, src, m, j, c, j, i);
    } else {
      PutElsewhere(sch, sid, m, j, c, i);
    }
  }

  /** A field without a counter does not look at one. */
  lemma NormalIsEmpty(sch: Schema, sid: nat, i: nat, c: Cell)
    requires WfSchema(sch) && sid < |sch| && i < |sch[sid]|
    requires KnownRef(sch, sch[sid][i]) && EmptyCell(sch, sch[sid][i], c.data, c.size)
    ensures EmptyCell(sch, sch[sid][i], c.data, NormalCell(sch[sid][i], c).size)
    ensures IdsCell(Stored, sch, sch[sid][i], c.data, NormalCell(sch[sid][i], c).size) ==
            IdsCell(Stored, sch, sch[sid][i], c.data, c.size)
  {
    assert WfMessage(sch, sid) && OkField(sch, sid, i);
    var f, size := sch[sid][i], NormalCell(sch[sid][i], c).size;
    assert PointerArray(sch, f) ==> SoundArray(sch, f, c.data, c.size) && SoundArray(sch, f, c.data, size);
  }

  lemma {:induction false} KeptFields(sch: Schema, sid: nat, src: Slot, m: Store, n: nat)
    requires WfSchema(sch) && sid < |sch| && n <= |sch[sid]| && src.Sub?
    requires forall i {:trigger KeptField(sch, sid, src, m, i)} :: 0 <= i < n ==> KeptField(sch, sid, src, m, i)
    ensures Kept(IdsFields(Stored, sch, sid, Sub(m), n), IdsFields(Reached, sch, sid, src, n),
                 IdsFields(Stored, sch, sid, src, n))
    decreases n
  {
    hide IdsField, IdsCell;
    if n == 0 {
    } else {
      var i := n - 1;
      KeptFields(sch, sid, src, m, i);
      assert KeptField(sch, sid, src, m, i);
      IdsFieldsStep(Stored, sch, sid, m, i);
      IdsFieldsStep(Stored, sch, sid, src.members, i);
      IdsFieldsStep(Reached, sch, sid, src.members, i);
      hide IdsFields;
      KeptSums(IdsFields(Stored, sch, sid, Sub(m), i), IdsFields(Reached, sch, sid, src, i),
               IdsFields(Stored, sch, sid, src, i), IdsField(Stored, sch, sid, m, i),
               IdsField(Reached, sch, sid, src.members, i), IdsField(Stored, sch, sid, src.members, i));
    }
  }

  /** `pb_release` leaves a struct with nothing to release and null pointers; what it
      still stores was out of reach before. */
  lemma {:induction false} ReleaseStructEmpty(sch: Schema, sid: nat, src: Slot, h: Heap)
    requires WfSchema(sch) && sid < |sch| && SoundStruct(sch, sid, src)
    ensures var r := ReleaseStruct(sch, sid, src, h);
            && r.slot.Sub? && EmptyStruct(sch, sid, r.slot.members)
            && Kept(IdsStruct(Stored, sch, sid, r.slot), IdsStruct(Reached, sch, sid, src),
                    IdsStruct(Stored, sch, sid, src))
    decreases src, 1
  {
    var m := ReleaseFields(sch, sid, src, h, |sch[sid]|).store;
    forall i | 0 <= i < |sch[sid]| ensures EmptyField(sch, sid, m, i) && KeptField(sch, sid, src, m, i) {
      ReleaseProgress(sch, sid, src, h, |sch[sid]|, i);
    }
    KeptFields(sch, sid, src, m, |sch[sid]|);
  }

  /** Releasing twice does nothing the second time. */
  lemma ReleaseTwice(sch: Schema, sid: nat, src: Slot, h: Heap, rest: multiset<nat>)
    requires WfSchema(sch) && sid < |sch|
    requires SoundStruct(sch, sid, src) && Balanced(h, rest + IdsStruct(Reached, sch, sid, src))
    ensures var once := ReleaseStruct(sch, sid, src, h);
            Balanced(once.heap, rest) && Balanced(ReleaseStruct(sch, sid, once.slot, once.heap).heap, rest)
  {
    var once := ReleaseStruct(sch, sid, src, h);
    ReleaseStructOwn(sch, sid, src, h, rest);
    ReleaseStructEmpty(sch, sid, src, h);
    EmptyIsSound(sch, sid, once.slot.members);
    AddNothing(rest);
    ReleaseStructOwn(sch, sid, once.slot, once.heap, rest);
  }
}
