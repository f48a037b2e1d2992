/** Heap ownership (PB_ENABLE_MALLOC): the blocks a struct owns, and that decoding
    and releasing keep the live blocks exactly those, each owned once. */
module Ownership {
  import opened Descriptor
  import opened FieldIterator
  import opened Allocator
  import opened Release
  import opened StaticOnly

  // -------------------------------------------------------- blocks of a struct

  /** Two ways to look at the blocks of a struct: all whose pointers it stores, or
      those a release reaches, which leaves out the array entries past the count. */
  datatype View = Stored | Reached

  function IdsPtr(x: Slot): multiset<nat> {
    if x.Block? then multiset{x.id} else multiset{}
  }

  predicate IsPtr(x: Slot) {
    x.Nil? || x.Block?
  }

  /** The blocks behind the place a value decoder writes to. */
  function IdsDest(w: View, sch: Schema, f: Field, x: Slot): multiset<nat>
    requires WfSchema(sch) && KnownRef(sch, f)
    decreases x, 1
  {
    if OwnBuffer(f) then IdsPtr(x)
    else if f.ltype.SubMessage? && f.ptr.Fields? then IdsFields(w, sch, f.ptr.id, x, |sch[f.ptr.id]|)
    else multiset{}
  }

  /** The blocks behind the first `n` entries of an array. */
  function IdsEntries(w: View, sch: Schema, f: Field, cells: seq<Slot>, n: int): multiset<nat>
    requires WfSchema(sch) && KnownRef(sch, f)
    decreases cells, 0, n
  {
    if n <= 0 then multiset{}
    else IdsEntries(w, sch, f, cells, n - 1) + (if n <= |cells| then IdsDest(w, sch, f, cells[n - 1]) else multiset{})
  }

  /** A static array of submessages that hold pointers. */
  predicate PointerArray(sch: Schema, f: Field)
    requires WfSchema(sch) && KnownRef(sch, f)
  {
    && f.atype.Static? && f.htype.Repeated?
    && f.ltype.SubMessage? && f.ptr.Fields? && !StaticMessage(sch, f.ptr.id)
  }

  /** The entries of a static array that count. */
  function EntryCount(w: View, f: Field, size: Slot): int {
    if w.Stored? then f.arraySize else SubCount(f, size)
  }

  /** The blocks a field owns: its own, and those behind its entries. */
  function IdsCell(w: View, sch: Schema, f: Field, data: Slot, size: Slot): multiset<nat>
    requires WfSchema(sch) && KnownRef(sch, f)
    decreases data, 2
  {
    if Inactive(f, size) then multiset{}
    else if f.atype.Static? then
      if !f.htype.Repeated? then IdsDest(w, sch, f, data)
      else match data
        case Arr(items) =>
          if PointerArray(sch, f) then IdsEntries(w, sch, f, items, EntryCount(w, f, size)) else multiset{}
        case _ => multiset{}
    else if !f.htype.Repeated? && OwnBuffer(f) then IdsPtr(data)
    else match data
      case Block(id, cells) =>
        multiset{id} + IdsEntries(w, sch, f, cells, if f.htype.Repeated? then Number(size) else 1)
      case _ => multiset{}
  }

  /** The blocks reachable from the first `n` fields of a struct. */
  function IdsFields(w: View, sch: Schema, sid: nat, src: Slot, n: nat): multiset<nat>
    requires WfSchema(sch) && sid < |sch| && n <= |sch[sid]|
    decreases src, 0, n
  {
    if n == 0 then multiset{}
    else
      assert WfMessage(sch, sid) && OkField(sch, sid, n - 1);
      IdsFields(w, sch, sid, src, n - 1) +
      (if src.Sub? && DataAt(sch[sid], n - 1) in src.members then
         IdsCell(w, sch, sch[sid][n - 1], src.members[DataAt(sch[sid], n - 1)],
                 CellOf(sch[sid], src.members, n - 1).size)
       else multiset{})
  }

  function IdsStruct(w: View, sch: Schema, sid: nat, src: Slot): multiset<nat>
    requires WfSchema(sch) && sid < |sch|
  {
    IdsFields(w, sch, sid, src, |sch[sid]|)
  }

  // ----------------------------------------------------------- sound structs

  predicate SoundDest(sch: Schema, f: Field, x: Slot)
    requires WfSchema(sch) && KnownRef(sch, f)
    decreases x, 1
  {
    if OwnBuffer(f) then IsPtr(x)
    else f.ltype.SubMessage? && f.ptr.Fields? ==> SoundStruct(sch, f.ptr.id, x)
  }

  predicate SoundEntries(sch: Schema, f: Field, cells: seq<Slot>, n: int)
    requires WfSchema(sch) && KnownRef(sch, f)
    decreases cells, 0
  {
    n <= |cells| && forall k :: 0 <= k < n ==> SoundDest(sch, f, cells[k])
  }

  /** A static array that may own blocks has all its entries. */
  predicate SoundArray(sch: Schema, f: Field, data: Slot, size: Slot)
    requires WfSchema(sch) && KnownRef(sch, f)
    decreases data, 1
  {
    match data
    case Arr(items) =>
      && |items| == f.arraySize && SoundEntries(sch, f, items, |items|)
      && (f.sizeOffset != 0 ==> size.Num? && 0 <= size.n)
    case _ => false
  }

  /** Pointers are null or own a block, counters do not exceed what was stored, an
      empty union with a pointer member holds null. */
  predicate SoundCell(sch: Schema, f: Field, data: Slot, size: Slot)
    requires WfSchema(sch) && KnownRef(sch, f)
    decreases data, 2
  {
    if Inactive(f, size) then f.atype.Pointer? && Number(size) == 0 ==> data.Nil?
    else if f.atype.Static? then
      if !f.htype.Repeated? then SoundDest(sch, f, data)
      else PointerArray(sch, f) ==> SoundArray(sch, f, data, size)
    else if !f.htype.Repeated? && OwnBuffer(f) then IsPtr(data)
    else match data
      case Nil => f.htype.Repeated? ==> size == Num(0)
      case Block(_, cells) =>
        if f.htype.Repeated? then size.Num? && 0 <= size.n <= PB_SIZE_MAX && SoundEntries(sch, f, cells, size.n)
        else SoundEntries(sch, f, cells, 1)
      case _ => false
  }

  /** A which_ member is zero or the tag of a member of its union. */
  predicate SoundWhich(fs: seq<Field>, i: nat, size: Slot)
    requires i < |fs|
  {
    fs[i].htype.OneOf? ==>
      size.Num? && size.n >= 0 &&
      (size.n == 0 ||
       (FirstMatch(fs, size.n, 0) < |fs| && UnionHead(fs, FirstMatch(fs, size.n, 0)) == UnionHead(fs, i)))
  }

  predicate SoundField(sch: Schema, sid: nat, src: Slot, i: nat)
    requires WfSchema(sch) && sid < |sch| && i < |sch[sid]|
    decreases src, 0, i
  {
    assert WfMessage(sch, sid) && OkField(sch, sid, i);
    && src.Sub? && DataAt(sch[sid], i) in src.members
    && SoundWhich(sch[sid], i, CellOf(sch[sid], src.members, i).size)
    && SoundCell(sch, sch[sid][i], src.members[DataAt(sch[sid], i)], CellOf(sch[sid], src.members, i).size)
  }

  predicate SoundStruct(sch: Schema, sid: nat, src: Slot)
    requires WfSchema(sch) && sid < |sch|
    decreases src, 0, |sch[sid]|
  {
    src.Sub? && forall i {:trigger SoundField(sch, sid, src, i)} :: 0 <= i < |sch[sid]| ==> SoundField(sch, sid, src, i)
  }

  // ----------------------------------------------------------------- account

  lemma Exchange(a: multiset<nat>, b: multiset<nat>, c: multiset<nat>)
    ensures (a + b) + c == (a + c) + b
  {
  }

  lemma Regroup(a: multiset<nat>, b: multiset<nat>, c: multiset<nat>)
    ensures (a + b) + c == a + (b + c)
  {
  }

  lemma Aside(rest: multiset<nat>, mine: multiset<nat>, others: multiset<nat>)
    ensures rest + (mine + others) == (rest + others) + mine
  {
  }

  lemma AddNothing(a: multiset<nat>)
    ensures a + multiset{} == a == multiset{} + a
  {
  }

  /** A heap has one account. */
  lemma OneAccount(h: Heap, a: multiset<nat>, x: multiset<nat>)
    ensures x == multiset{} ==> a + x == a
    ensures Balanced(h, a) && Balanced(h, a + x) ==> x == multiset{}
  {
    forall id: nat | Balanced(h, a) && Balanced(h, a + x) ensures x[id] == 0 {
      assert a[id] == (a + x)[id] == a[id] + x[id];
    }
  }

  /** No block has a name that is still to be given. */
  ghost predicate Bounded(h: Heap) {
    forall id {:trigger id in h.live} :: id in h.live ==> id < h.next
  }

  /** The live blocks are exactly `ids`, each once, and nothing went wrong. */
  ghost predicate Balanced(h: Heap, ids: multiset<nat>) {
    && !h.fault && Bounded(h)
    && (forall id {:trigger ids[id]} :: ids[id] == if id in h.live then 1 else 0)
  }

  /** Freeing a pointer is right exactly when its block was one of the live ones. */
  lemma FreeExactly(h: Heap, x: Slot, rest: multiset<nat>)
    requires IsPtr(x) && Bounded(h)
    ensures Bounded(Free(h, x)) && (Balanced(Free(h, x), rest) <==> Balanced(h, rest + IdsPtr(x)))
  {
    var all, after := rest + IdsPtr(x), Free(h, x);
    if x.Block? {
      assert all[x.id] == rest[x.id] + 1;
      if Balanced(h, all) {
        forall id ensures rest[id] == if id in after.live then 1 else 0 {
          assert all[id] == if id in h.live then 1 else 0;
        }
      }
      if Balanced(after, rest) {
        forall id ensures all[id] == if id in h.live then 1 else 0 {
          assert rest[id] == if id in after.live then 1 else 0;
        }
      }
    } else {
      assert all == rest;
    }
  }

  lemma BalancedIsBounded(h: Heap, ids: multiset<nat>)
    requires Balanced(h, ids)
    ensures Bounded(h)
  {
  }

  lemma ReallocBalanced(h: Heap, x: Slot, n: nat, bytes: nat, rest: multiset<nat>)
    requires IsPtr(x) && Balanced(h, rest + IdsPtr(x))
    ensures var a := Realloc(h, x, n, bytes);
            if a.ok then a.slot.Block? && Balanced(a.heap, rest + multiset{a.slot.id})
            else a.slot == x && Balanced(a.heap, rest + IdsPtr(x))
  {
    var all := rest + IdsPtr(x);
    var a := Realloc(h, x, n, bytes);
    if a.ok {
      var next := rest + multiset{h.next};
      assert all[h.next] == 0;
      if x.Block? {
        assert all[x.id] == rest[x.id] + 1;
      }
      forall id ensures next[id] == if id in a.heap.live then 1 else 0 {
        assert all[id] == if id in h.live then 1 else 0;
      }
    }
  }

  lemma AllocateBalanced(h: Heap, x: Slot, dataSize: nat, n: nat, rest: multiset<nat>)
    requires IsPtr(x) && Balanced(h, rest + IdsPtr(x))
    ensures var a := AllocateField(h, x, dataSize, n);
            if a.ok then
              && a.slot.Block? && |a.slot.cells| == n && Balanced(a.heap, rest + multiset{a.slot.id})
              && (forall k :: 0 <= k < n && k < |Items(x)| ==> a.slot.cells[k] == Items(x)[k])
            else a.slot == x && Balanced(a.heap, rest + IdsPtr(x))
  {
    ReallocBalanced(h, x, n, n * dataSize, rest);
  }
}
