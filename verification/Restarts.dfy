/** When a decode loses nothing. Array entries are initialised without being released,
    so a fixed-count array must not start again once its entries own blocks: it is
    sent in one run, and a struct that holds one in one record. */
module Restarts {
  import opened Bits
  import opened Descriptor
  import opened FieldIterator
  import opened Scalars
  import opened Defaults
  import opened Allocator
  import opened Release
  import D = DecodeSpec
  import opened Ownership
  import opened UnionOwnership
  import opened ReleaseOwnership
  import opened DefaultOwnership
  import opened Losses
  import opened DecodeOwnership
  import opened Delimiting
  import opened Trace

  // ------------------------------------------------------- what is sent once

  /** A record of the field fills entries from the first one on: a fixed-count array of
      submessages that hold pointers, or a struct that has one inside. */
  predicate Refills(sch: Schema, sid: nat, i: nat)
    requires WfSchema(sch) && sid < |sch| && i < |sch[sid]|
    decreases sid, 0
  {
    var f := sch[sid][i];
    assert WfMessage(sch, sid) && OkField(sch, sid, i);
    if D.FixedCount(f) then PointerArray(sch, f)
    else f.atype.Static? && !f.htype.Repeated? && f.ltype.SubMessage? && RefillsInside(sch, f.ptr.id)
  }

  predicate RefillsInside(sch: Schema, sid: nat)
    requires WfSchema(sch) && sid < |sch|
    decreases sid, 1
  {
    exists i {:trigger Refills(sch, sid, i)} :: 0 <= i < |sch[sid]| && Refills(sch, sid, i)
  }

  /** Every such array has one run among the records, every such struct one record;
      `last` is the fixed-count array whose run is going on. */
  predicate SingleRuns(sch: Schema, sid: nat, last: int, t: seq<Event>)
    requires WfSchema(sch) && sid < |sch|
    decreases |t|
  {
    if t == [] then true
    else
      var i := t[0].field;
      if i >= |sch[sid]| then SingleRuns(sch, sid, last, t[1..])
      else if D.FixedCount(sch[sid][i]) then
        && (i != last && 0 <= last < |sch[sid]| && Refills(sch, sid, last) ==> !Occurs(t, last))
        && SingleRuns(sch, sid, i, t[1..])
      else
        && (Refills(sch, sid, i) ==> !Occurs(t[1..], i))
        && SingleRuns(sch, sid, last, t[1..])
  }

  /** The message and all submessages in it are sent in this way. */
  predicate SentOnce(sch: Schema, sid: nat, s: seq<Byte>)
    requires WfSchema(sch) && sid < |sch|
    decreases |s|, 2
  {
    SingleRuns(sch, sid, -1, Events(sch[sid], s)) && PayloadsOnce(sch, sid, s)
  }

  predicate PayloadsOnce(sch: Schema, sid: nat, s: seq<Byte>)
    requires WfSchema(sch) && sid < |sch|
    decreases |s|, 1
  {
    if s == [] then true
    else
      && RecordOnce(sch, sid, s)
      && match RecordEnd(sch[sid], s)
         case Skipped(rest) => PayloadsOnce(sch, sid, rest)
         case NoSkip => true
  }

  predicate RecordOnce(sch: Schema, sid: nat, s: seq<Byte>)
    requires WfSchema(sch) && sid < |sch|
    decreases |s|, 0
  {
    match D.DecodeTag(s)
    case Tag(number, _, rest) =>
      var i := FirstMatch(sch[sid], number, 0);
      i < |sch[sid]| ==> assert WfMessage(sch, sid) && OkField(sch, sid, i); PayloadOnce(sch, sch[sid][i], rest)
    case _ => true
  }

  predicate PayloadOnce(sch: Schema, f: Field, s: seq<Byte>)
    requires WfSchema(sch) && KnownRef(sch, f)
    decreases |s|, 3
  {
    f.ltype.SubMessage? && f.ptr.Fields? ==>
      match D.Delimited(s)
      case Chunk(body, _) => SentOnce(sch, f.ptr.id, body)
      case NoChunk => true
  }

  // ------------------------------------------------------ nothing out of reach

  predicate TidyDest(sch: Schema, f: Field, x: Slot)
    requires WfSchema(sch) && KnownRef(sch, f)
  {
    IdsDest(Stored, sch, f, x) == IdsDest(Reached, sch, f, x)
  }

  predicate TidyCell(sch: Schema, f: Field, c: Cell)
    requires WfSchema(sch) && KnownRef(sch, f)
  {
    IdsCell(Stored, sch, f, c.data, c.size) == IdsCell(Reached, sch, f, c.data, c.size)
  }

  predicate TidyGroup(sch: Schema, sid: nat, i: nat, c: Cell)
    requires WfSchema(sch) && sid < |sch| && i < |sch[sid]|
  {
    IdsGroup(Stored, sch, sid, i, c) == IdsGroup(Reached, sch, sid, i, c)
  }

  /** A release reaches every block the struct stores: none is past the count of its
      array. */
  predicate Tidy(sch: Schema, sid: nat, x: Slot)
    requires WfSchema(sch) && sid < |sch|
  {
    IdsStruct(Stored, sch, sid, x) == IdsStruct(Reached, sch, sid, x)
  }

  lemma SameSums(a: multiset<nat>, b: multiset<nat>, c: multiset<nat>, d: multiset<nat>)
    requires a <= b && c <= d
    ensures a + c == b + d <==> a == b && c == d
  {
    if a + c == b + d {
      forall x: nat ensures a[x] == b[x] && c[x] == d[x] {
        assert (a + c)[x] == (b + d)[x];
      }
    }
  }

  predicate TidyEntry(sch: Schema, f: Field, cells: seq<Slot>, n: int, k: nat)
    requires WfSchema(sch) && KnownRef(sch, f) && k < |cells|
  {
    if k < n then TidyDest(sch, f, cells[k]) else IdsDest(Stored, sch, f, cells[k]) == multiset{}
  }

  /** Array entries: nothing is out of reach exactly if that holds of those that count
      and the others own nothing. */
  lemma {:induction false} TidyEntries(sch: Schema, f: Field, cells: seq<Slot>, n: nat, all: nat)
    requires WfSchema(sch) && KnownRef(sch, f) && all <= |cells|
    ensures IdsEntries(Stored, sch, f, cells, all) ==
            IdsEntries(Reached, sch, f, cells, if n < all then n else all) <==>
            forall k {:trigger TidyEntry(sch, f, cells, n, k)} :: 0 <= k < all ==> TidyEntry(sch, f, cells, n, k)
    decreases all
  {
    hide IdsDest, IdsEntries;
    if all == 0 {
      NoEntries(Stored, sch, f, cells);
      NoEntries(Reached, sch, f, cells);
    } else {
      var k := all - 1;
      var few := if n < k then n else k;
      TidyEntries(sch, f, cells, n, k);
      EntriesStep(Stored, sch, f, cells, k);
      ReachedEntries(sch, f, cells, few, k);
      ReachedDest(sch, f, cells[k]);
      var mine := if k < n then IdsDest(Reached, sch, f, cells[k]) else multiset{};
      if k < n {
        EntriesStep(Reached, sch, f, cells, k);
      } else {
        AddNothing(IdsEntries(Reached, sch, f, cells, few));
      }
      SameSums(IdsEntries(Reached, sch, f, cells, few), IdsEntries(Stored, sch, f, cells, k), mine,
               IdsDest(Stored, sch, f, cells[k]));
      assert TidyEntry(sch, f, cells, n, k) <==> mine == IdsDest(Stored, sch, f, cells[k]);
    }
  }

  // ----------------------------------------------------------------- one value

  /** The place a value is decoded to. An array entry owns nothing yet; a struct that is
      merged into has nothing out of reach, and owns nothing if entries in it will be
      filled again. */
  predicate ReadyDest(sch: Schema, f: Field, x: Slot)
    requires WfSchema(sch) && KnownRef(sch, f)
  {
    f.ltype.SubMessage? && f.ptr.Fields? ==>
      && TidyDest(sch, f, x)
      && (f.htype.Repeated? || RefillsInside(sch, f.ptr.id) ==> IdsDest(Stored, sch, f, x) == multiset{})
  }

  lemma EmptyIsReady(sch: Schema, f: Field, x: Slot)
    requires WfSchema(sch) && KnownRef(sch, f) && IdsDest(Stored, sch, f, x) == multiset{}
    ensures ReadyDest(sch, f, x)
  {
    ReachedDest(sch, f, x);
  }

  lemma {:induction false} ValueKeeps(sch: Schema, f: Field, s: seq<Byte>, dest: Slot, h: Heap, rest: multiset<nat>)
    requires WfSchema(sch) && Accounted(sch, f) && PayloadOnce(sch, f, s)
    requires SoundDest(sch, f, dest) && ReadyDest(sch, f, dest) && Balanced(h, rest + IdsDest(Stored, sch, f, dest))
    ensures LostValue(sch, f, s, dest, h) == multiset{} && TidyDest(sch, f, D.DecValue(sch, f, s, dest, h).slot)
    decreases |s|, 2
  {
    hide Balanced, D.DecBuffer, D.DecFixedBytes, DecScalar, IdsFields, SoundStruct, RefillsInside, SentOnce;
    hide LostInit, LostDecode, LostNoInit, D.Decode, D.DecodeNoInit;
    if f.ltype.SubMessage? {
      var id := f.ptr.id;
      assert D.DecValue(sch, f, s, dest, h) == D.DecSub(sch, f, s, dest, h);
      assert SoundStruct(sch, id, dest) && IdsDest(Stored, sch, f, dest) == IdsStruct(Stored, sch, id, dest);
      if D.Delimited(s).Chunk? {
        SubKeeps(sch, f, D.Delimited(s).body, dest, h, rest);
      }
    }
  }

  lemma {:induction false} SubKeeps(sch: Schema, f: Field, body: seq<Byte>, dest: Slot, h: Heap, rest: multiset<nat>)
    requires WfSchema(sch) && KnownRef(sch, f) && f.ltype.SubMessage? && f.ptr.Fields? && SentOnce(sch, f.ptr.id, body)
    requires SoundStruct(sch, f.ptr.id, dest) && Balanced(h, rest + IdsStruct(Stored, sch, f.ptr.id, dest))
    requires Tidy(sch, f.ptr.id, dest)
    requires f.htype.Repeated? || RefillsInside(sch, f.ptr.id) ==> IdsStruct(Stored, sch, f.ptr.id, dest) == multiset{}
    ensures var id, m := f.ptr.id, Members(dest);
            if f.htype.Repeated? then
              && LostInit(sch, id, dest) + LostDecode(sch, id, body, m, h) == multiset{}
              && Tidy(sch, id, Sub(D.Decode(sch, id, body, m, h).store))
            else
              && LostNoInit(sch, id, body, m, h) == multiset{}
              && Tidy(sch, id, Sub(D.DecodeNoInit(sch, id, body, m, h).store))
    decreases |body|, 12
  {
    hide Balanced, IdsFields, SoundStruct, SentOnce, RefillsInside;
    hide LostDecode, LostNoInit, D.Decode, D.DecodeNoInit, LaidOut;
    var id := f.ptr.id;
    assert dest == Sub(Members(dest)) by { assert dest.Sub? by { SoundIsStruct(sch, id, dest); } }
    if f.htype.Repeated? {
      SoundIsLaidOut(sch, id, dest);
      AddNothing(rest);
      DecodeKeeps(sch, id, body, Members(dest), h, rest);
    } else {
      ReadyToMerge(sch, id, Members(dest), h, body);
      NoInitKeeps(sch, id, body, Members(dest), h, rest);
    }
  }

  lemma SoundIsStruct(sch: Schema, id: nat, x: Slot)
    requires WfSchema(sch) && id < |sch| && SoundStruct(sch, id, x)
    ensures x.Sub?
  {
  }

  // ----------------------------------------------------------------- one field

  predicate OwnsNothing(sch: Schema, f: Field, x: Slot)
    requires WfSchema(sch) && KnownRef(sch, f)
  {
    IdsDest(Stored, sch, f, x) == multiset{}
  }

  /** The entries from `n` on own nothing. */
  predicate FreeFrom(sch: Schema, f: Field, items: seq<Slot>, n: int)
    requires WfSchema(sch) && KnownRef(sch, f)
  {
    forall k {:trigger OwnsNothing(sch, f, items[k])} :: n <= k < |items| && 0 <= k ==> OwnsNothing(sch, f, items[k])
  }

  lemma {:induction false} ArrayKeeps(sch: Schema, f: Field, s: seq<Byte>, c: Cell, h: Heap, rest: multiset<nat>)
    requires WfSchema(sch) && Accounted(sch, f) && PointerArray(sch, f) && PayloadOnce(sch, f, s)
    requires SoundArray(sch, f, c.data, c.size) && Balanced(h, rest + IdsCell(Stored, sch, f, c.data, c.size))
    requires 0 <= Number(c.size) && TidyCell(sch, f, c)
    requires D.FixedCount(f) ==> FreeFrom(sch, f, Items(c.data), Number(c.size))
    ensures LostStatic(sch, f, s, c, h) == multiset{}
    ensures var o := D.StaticSingle(sch, f, s, c, h).cell;
            TidyCell(sch, f, o) && (D.FixedCount(f) ==> FreeFrom(sch, f, Items(o.data), Number(o.size)))
    decreases |s|, 3
  {
    hide Balanced, IdsDest, SoundDest, LostValue, D.DecValue, IdsEntries, PayloadOnce;
    var k, items := Number(c.size), Items(c.data);
    TidyEntries(sch, f, items, SubCount(f, c.size), f.arraySize);
    if k < f.arraySize {
      var item := items[k];
      assert TidyEntry(sch, f, items, SubCount(f, c.size), k);
      assert D.FixedCount(f) ==> OwnsNothing(sch, f, items[k]);
      var same := ArraySwap(sch, f, c, k, item);
      Regroup(rest, same, IdsDest(Stored, sch, f, item));
      EmptyIsReady(sch, f, item);
      ValueKeeps(sch, f, s, item, h, rest + same);
      var v := D.DecValue(sch, f, s, item, h);
      SwappedTidy(sch, f, items, k, v.slot, c.size);
    }
  }

  lemma SwappedTidy(sch: Schema, f: Field, items: seq<Slot>, k: nat, x: Slot, size: Slot)
    requires WfSchema(sch) && KnownRef(sch, f) && PointerArray(sch, f) && k < |items| == f.arraySize
    requires Number(size) == k
    requires TidyCell(sch, f, Cell(Arr(items), size)) && TidyDest(sch, f, x)
    requires D.FixedCount(f) ==> FreeFrom(sch, f, items, k)
    ensures TidyCell(sch, f, Cell(Arr(items[k := x]), Num(k + 1)))
    ensures D.FixedCount(f) ==> FreeFrom(sch, f, items[k := x], k + 1)
  {
    hide IdsDest, IdsEntries, SoundDest;
    var was, now, next := SubCount(f, size), SubCount(f, Num(k + 1)), items[k := x];
    TidyEntries(sch, f, items, was, |items|);
    TidyEntries(sch, f, next, now, |items|);
    forall j | 0 <= j < |items| ensures TidyEntry(sch, f, next, now, j) {
      assert TidyEntry(sch, f, items, was, j);
    }
    if D.FixedCount(f) {
      forall j | k + 1 <= j < |items| ensures OwnsNothing(sch, f, next[j]) {
        assert OwnsNothing(sch, f, items[j]);
      }
    }
  }

  lemma {:induction false} StaticKeeps(sch: Schema, f: Field, wire: nat, s: seq<Byte>, c: Cell, h: Heap,
                                       rest: multiset<nat>)
    requires WfSchema(sch) && Accounted(sch, f) && f.atype.Static? && !f.htype.Repeated? && PayloadOnce(sch, f, s)
    requires Startable(sch, f, c) && Balanced(h, rest + IdsCell(Stored, sch, f, c.data, c.size)) && TidyCell(sch, f, c)
    requires f.ltype.SubMessage? && RefillsInside(sch, f.ptr.id) ==>
               IdsCell(Stored, sch, f, c.data, c.size) == multiset{}
    ensures LostStatic(sch, f, s, c, h) == multiset{} && TidyCell(sch, f, D.StaticStep(sch, f, wire, s, c, h).cell)
    decreases |s|, 4
  {
    hide Balanced, LostValue, D.DecValue, RefillsInside, IdsFields, PayloadOnce, SoundStruct;
    if f.htype.OneOf? && f.ltype.SubMessage? && Inactive(f, c.size) {
      FreshIsEmpty(sch, f.ptr.id);
      EmptyIsReady(sch, f, FreshStruct(sch, f.ptr.id));
      ValueKeeps(sch, f, s, FreshStruct(sch, f.ptr.id), h, rest);
    } else {
      ValueKeeps(sch, f, s, c.data, h, rest);
    }
  }

  lemma NewItemIsReady(sch: Schema, f: Field, was: Slot)
    requires WfSchema(sch) && Accounted(sch, f) && f.atype.Pointer?
    ensures var item := D.NewItem(sch, f, was);
            SoundDest(sch, f, item) && IdsDest(Stored, sch, f, item) == multiset{} && ReadyDest(sch, f, item)
  {
    NewItemIsEmpty(sch, f, was);
    EmptyIsReady(sch, f, D.NewItem(sch, f, was));
  }

  /** A block whose last item has been decoded. */
  lemma LastTidy(sch: Schema, f: Field, was: seq<Slot>, cells: seq<Slot>, k: nat, x: Slot)
    requires WfSchema(sch) && KnownRef(sch, f) && k <= |was| && |cells| == k + 1 && TidyDest(sch, f, x)
    requires forall j :: 0 <= j < k ==> cells[j] == was[j]
    requires IdsEntries(Stored, sch, f, was, k) == IdsEntries(Reached, sch, f, was, k)
    ensures var next := cells[k := x];
            IdsEntries(Stored, sch, f, next, k + 1) == IdsEntries(Reached, sch, f, next, k + 1)
  {
    hide IdsDest, IdsEntries;
    var next := cells[k := x];
    TidyEntries(sch, f, was, k, k);
    var n := k + 1;
    TidyEntries(sch, f, next, n, n);
    forall j: nat | j < |next| ensures TidyEntry(sch, f, next, n, j) {
      assert j < k ==> TidyEntry(sch, f, was, k, j);
    }
  }

  lemma {:induction false} SingleKeeps(sch: Schema, f: Field, s: seq<Byte>, c: Cell, h: Heap, rest: multiset<nat>)
    requires WfSchema(sch) && Accounted(sch, f) && f.atype.Pointer? && f.htype.Repeated? && PayloadOnce(sch, f, s)
    requires SoundCell(sch, f, c.data, c.size) && Balanced(h, rest + IdsCell(Stored, sch, f, c.data, c.size))
    requires TidyCell(sch, f, c)
    ensures LostPointer(sch, f, s, c, h) == multiset{} && TidyCell(sch, f, D.PointerSingle(sch, f, s, c, h).cell)
    decreases |s|, 4
  {
    hide Balanced, AllocateField, D.NewItem, D.DecValue, D.PointerSingle, PayloadOnce;
    hide IdsEntries, SoundEntries, SoundCell, IdsCell, IdsPtr, LostPointer, LostValue, IdsDest;
    var k, cells := Number(c.size), Items(c.data);
    HeapArrayIds(Stored, sch, f, c.data, c.size);
    HeapArrayIds(Reached, sch, f, c.data, c.size);
    SingleCases(sch, f, s, c, h);
    var inner := IdsEntries(Stored, sch, f, cells, k);
    ReachedEntries(sch, f, cells, k, k);
    SameSums(IdsPtr(c.data), IdsPtr(c.data), IdsEntries(Reached, sch, f, cells, k), inner);
    if k < PB_SIZE_MAX {
      Aside(rest, IdsPtr(c.data), inner);
      AllocateBalanced(h, c.data, f.dataSize, k + 1, rest + inner);
      var a := AllocateField(h, c.data, f.dataSize, k + 1);
      if a.ok {
        var item := D.NewItem(sch, f, ItemAt(Items(a.slot), k));
        NewItemIsReady(sch, f, ItemAt(Items(a.slot), k));
        AddNothing(rest + inner + multiset{a.slot.id});
        ValueKeeps(sch, f, s, item, a.heap, rest + inner + multiset{a.slot.id});
        var v := D.DecValue(sch, f, s, item, a.heap);
        LastTidy(sch, f, cells, a.slot.cells, k, v.slot);
        BlockTidy(sch, f, D.WithItem(a.slot, k, v.slot), k + 1);
      }
    }
  }

  lemma BlockTidy(sch: Schema, f: Field, b: Slot, n: nat)
    requires WfSchema(sch) && KnownRef(sch, f) && f.atype.Pointer? && f.htype.Repeated? && b.Block?
    requires IdsEntries(Stored, sch, f, b.cells, n) == IdsEntries(Reached, sch, f, b.cells, n)
    ensures TidyCell(sch, f, Cell(b, Num(n)))
  {
  }

  lemma {:induction false} OneKeeps(sch: Schema, f: Field, s: seq<Byte>, c: Cell, h: Heap, rest: multiset<nat>)
    requires WfSchema(sch) && Accounted(sch, f) && f.atype.Pointer? && !f.htype.Repeated? && PayloadOnce(sch, f, s)
    requires Startable(sch, f, c) && Balanced(h, rest + IdsCell(Stored, sch, f, c.data, c.size)) && TidyCell(sch, f, c)
    ensures LostPointer(sch, f, s, c, h) == multiset{} && TidyCell(sch, f, D.PointerOne(sch, f, s, c, h).cell)
    decreases |s|, 5
  {
    if OwnBuffer(f) {
      BufferKeeps(sch, f, s, c, h);
    } else {
      hide Balanced, LostValue, D.DecValue, PayloadOnce, IdsEntries;
      var r := Emptied(sch, f, c, h, rest);
      OneIsBlock(sch, f, s, c, h, r);
      BlockKeeps(sch, f, s, r.cell.data, r.heap, rest + LostThere(sch, f, c),
                 if f.htype.OneOf? then Num(f.tag) else c.size);
    }
  }

  lemma BufferKeeps(sch: Schema, f: Field, s: seq<Byte>, c: Cell, h: Heap)
    requires WfSchema(sch) && KnownRef(sch, f) && OwnBuffer(f) && !f.htype.Repeated?
    ensures LostPointer(sch, f, s, c, h) == multiset{} && TidyCell(sch, f, D.PointerOne(sch, f, s, c, h).cell)
  {
  }

  /** The block of a single pointer field. */
  lemma {:induction false} BlockKeeps(sch: Schema, f: Field, s: seq<Byte>, data: Slot, h: Heap, rest: multiset<nat>,
                                      size: Slot)
    requires WfSchema(sch) && Accounted(sch, f) && f.atype.Pointer? && !f.htype.Repeated? && !OwnBuffer(f)
    requires PayloadOnce(sch, f, s) && IdsEntries(Stored, sch, f, Items(data), 1) == multiset{}
    requires SoundBlock(sch, f, data) && Balanced(h, rest + IdsPtr(data))
    ensures LostBlock(sch, f, s, data, h) == multiset{}
    ensures TidyCell(sch, f, Cell(DecBlock(sch, f, s, data, h).slot, size))
    decreases |s|, 4
  {
    hide Balanced, LostValue, D.DecValue, PayloadOnce, IdsDest, AllocateField;
    AllocateBalanced(h, data, f.dataSize, 1, rest);
    var a := AllocateField(h, data, f.dataSize, 1);
    ReachedEntries(sch, f, Items(data), 1, 1);
    if a.ok {
      var item := D.NewItem(sch, f, ItemAt(Items(a.slot), 0));
      NewItemIsReady(sch, f, ItemAt(Items(a.slot), 0));
      AddNothing(rest + multiset{a.slot.id});
      ValueKeeps(sch, f, s, item, a.heap, rest + multiset{a.slot.id});
      LastTidy(sch, f, [], a.slot.cells, 0, D.DecValue(sch, f, s, item, a.heap).slot);
    }
  }

  lemma {:induction false} PointerKeeps(sch: Schema, f: Field, wire: nat, s: seq<Byte>, c: Cell, h: Heap,
                                        rest: multiset<nat>)
    requires WfSchema(sch) && Accounted(sch, f) && f.atype.Pointer? && f.dataSize > 0 && PayloadOnce(sch, f, s)
    requires Startable(sch, f, c) && Balanced(h, rest + IdsCell(Stored, sch, f, c.data, c.size)) && TidyCell(sch, f, c)
    ensures LostPointer(sch, f, s, c, h) == multiset{} && TidyCell(sch, f, D.PointerStep(sch, f, wire, s, c, h).cell)
    decreases |s|, 6, 0
  {
    hide Balanced, LostPointer, PayloadOnce;
    if !f.htype.Repeated? {
      OneKeeps(sch, f, s, c, h, rest);
    } else if wire == WT_STRING && Packable(f.ltype) {
      PackedKeeps(sch, f, s, c, h);
    } else {
      SingleKeeps(sch, f, s, c, h, rest);
    }
  }

  lemma PackedKeeps(sch: Schema, f: Field, s: seq<Byte>, c: Cell, h: Heap)
    requires WfSchema(sch) && Accounted(sch, f) && f.atype.Pointer? && f.htype.Repeated? && f.dataSize > 0
    requires Packable(f.ltype)
    ensures LostPointer(sch, f, s, c, h) == multiset{} && TidyCell(sch, f, D.PointerPacked(f, s, c, h).cell)
  {
    hide D.GrowItems;
    var o := D.PointerPacked(f, s, c, h).cell;
    NoEntryBlocks(Stored, sch, f, Items(o.data), Number(o.size));
    NoEntryBlocks(Reached, sch, f, Items(o.data), Number(o.size));
  }

  /** The cell a record is decoded into, when its field fills array entries again: the
      entries to come own nothing. */
  predicate ReadyCell(sch: Schema, sid: nat, i: nat, c: Cell)
    requires WfSchema(sch) && sid < |sch| && i < |sch[sid]|
  {
    var f := sch[sid][i];
    assert WfMessage(sch, sid) && OkField(sch, sid, i);
    Refills(sch, sid, i) ==>
      if D.FixedCount(f) then FreeFrom(sch, f, Items(c.data), Number(c.size))
      else IdsCell(Stored, sch, f, c.data, c.size) == multiset{}
  }

  /** Making room in a union loses nothing when nothing is out of reach. */
  lemma UnionKeeps(sch: Schema, sid: nat, i: nat, c: Cell, h: Heap)
    requires WfSchema(sch) && sid < |sch| && i < |sch[sid]| && sch[sid][i].htype.OneOf?
    requires SoundGroup(sch, sid, i, c) && TidyGroup(sch, sid, i, c)
    ensures KnownRef(sch, sch[sid][i])
    ensures var u := D.ReleaseUnion(sch, sid, i, c, h);
            && LostUnion(sch, sid, i, c) == multiset{} && TidyCell(sch, sch[sid][i], u.cell)
            && (Number(c.size) != sch[sid][i].tag ==>
                  IdsCell(Stored, sch, sch[sid][i], u.cell.data, u.cell.size) == multiset{})
            && (Number(c.size) == sch[sid][i].tag ==> u.cell == c)
  {
    hide IdsFields, IdsEntries, IdsDest;
    var fs, was := sch[sid], Number(c.size);
    assert WfMessage(sch, sid) && OkField(sch, sid, i);
    if was == fs[i].tag {
      MatchIsUnique(fs, was, i);
    } else if was != 0 {
      var j := FirstMatch(fs, was, 0);
      HolderInUnion(sch, sid, i, c);
      assert OkField(sch, sid, j) && SoundMember(sch, sid, j, c);
      ReleaseCellEmpty(sch, fs[j], c.data, c.size, h);
    }
  }

  lemma {:induction false} FieldKeeps(sch: Schema, sid: nat, i: nat, wire: nat, s: seq<Byte>, c: Cell, h: Heap,
                                      rest: multiset<nat>)
    requires WfSchema(sch) && sid < |sch| && i < |sch[sid]| && (D.FixedCount(sch[sid][i]) ==> 0 <= Number(c.size))
    requires SoundGroup(sch, sid, i, c) && Balanced(h, rest + IdsGroup(Stored, sch, sid, i, c))
    requires TidyGroup(sch, sid, i, c) && ReadyCell(sch, sid, i, c)
    requires KnownRef(sch, sch[sid][i]) && PayloadOnce(sch, sch[sid][i], s)
    ensures LostField(sch, sid, i, s, c, h) == multiset{}
    ensures var o := D.FieldStep(sch, sid, i, wire, s, c, h);
            TidyGroup(sch, sid, i, o.cell) && (D.FixedCount(sch[sid][i]) ==> ReadyCell(sch, sid, i, o.cell))
    decreases |s|, 6
  {
    hide Balanced, LostStatic, LostPointer, LostUnion, PayloadOnce;
    hide IdsCell, SoundCell, D.StaticStep, D.PointerStep, D.ReleaseUnion;
    var f := sch[sid][i];
    assert WfMessage(sch, sid) && OkField(sch, sid, i);
    if f.atype.Static? && f.htype.Repeated? {
      ArrayFieldKeeps(sch, sid, i, wire, s, c, h, rest);
    } else {
      assert SoundMember(sch, sid, i, c);
      var u := if f.htype.OneOf? then D.ReleaseUnion(sch, sid, i, c, h) else D.UnionOut(true, c, h);
      if f.htype.OneOf? {
        UnionReleased(sch, sid, i, c, h, rest);
        UnionKeeps(sch, sid, i, c, h);
        AddNothing(rest);
      }
      if f.atype.Static? {
        StaticKeeps(sch, f, wire, s, u.cell, u.heap, rest);
        StaticOwn(sch, f, wire, s, u.cell, u.heap, rest);
      } else {
        PointerKeeps(sch, f, wire, s, u.cell, u.heap, rest);
        PointerOwn(sch, f, wire, s, u.cell, u.heap, rest);
      }
      CurrentMember(Stored, sch, sid, i, D.FieldStep(sch, sid, i, wire, s, c, h).cell);
      CurrentMember(Reached, sch, sid, i, D.FieldStep(sch, sid, i, wire, s, c, h).cell);
    }
  }

  lemma {:induction false} ArrayFieldKeeps(sch: Schema, sid: nat, i: nat, wire: nat, s: seq<Byte>, c: Cell, h: Heap,
                                           rest: multiset<nat>)
    requires WfSchema(sch) && sid < |sch| && i < |sch[sid]| && (D.FixedCount(sch[sid][i]) ==> 0 <= Number(c.size))
    requires sch[sid][i].atype.Static? && sch[sid][i].htype.Repeated?
    requires SoundGroup(sch, sid, i, c) && Balanced(h, rest + IdsGroup(Stored, sch, sid, i, c))
    requires TidyGroup(sch, sid, i, c) && ReadyCell(sch, sid, i, c)
    requires KnownRef(sch, sch[sid][i]) && PayloadOnce(sch, sch[sid][i], s)
    ensures LostField(sch, sid, i, s, c, h) == multiset{}
    ensures var o := D.FieldStep(sch, sid, i, wire, s, c, h);
            TidyGroup(sch, sid, i, o.cell) && (D.FixedCount(sch[sid][i]) ==> ReadyCell(sch, sid, i, o.cell))
    decreases |s|, 5
  {
    hide Balanced, PayloadOnce;
    var f := sch[sid][i];
    var o := D.FieldStep(sch, sid, i, wire, s, c, h);
    ArrayUntouched(sch, sid, i, wire, s, c, h);
    assert WfMessage(sch, sid) && OkField(sch, sid, i);
    if PointerArray(sch, f) {
      assert SoundMember(sch, sid, i, c) && SoundArray(sch, f, c.data, c.size);
      ArrayKeeps(sch, f, s, c, h, rest);
      ArrayOwn(sch, f, s, c, h, rest);
      StepIsSingle(sch, sid, i, wire, s, c, h);
      CurrentMember(Stored, sch, sid, i, o.cell);
      CurrentMember(Reached, sch, sid, i, o.cell);
    } else {
      assert IdsGroup(Reached, sch, sid, i, o.cell) == IdsCell(Reached, sch, f, o.cell.data, o.cell.size);
      ReachedCell(sch, f, o.cell.data, o.cell.size);
    }
  }

  // ------------------------------------------------------------------ messages

  /** The run may go on with a record of field `i`. */
  predicate ReadyField(sch: Schema, sid: nat, run: D.Run, i: nat)
    requires WfSchema(sch) && sid < |sch| && i < |sch[sid]|
  {
    ReadyCell(sch, sid, i, D.RunCell(sch[sid], if D.FixedCount(sch[sid][i]) then D.EnterFixed(run, i) else run, i))
  }

  predicate Ready(sch: Schema, sid: nat, run: D.Run, t: seq<Event>)
    requires WfSchema(sch) && sid < |sch|
  {
    forall i {:trigger ReadyField(sch, sid, run, i)} :: 0 <= i < |sch[sid]| && Occurs(t, i) ==>
      ReadyField(sch, sid, run, i)
  }

  /** The struct of the run is sound, with nothing out of reach. */
  ghost predicate InOrder(sch: Schema, sid: nat, run: D.Run, rest: multiset<nat>)
    requires WfSchema(sch) && sid < |sch|
  {
    0 <= run.fixedSize && Owned(sch, sid, run.store, run.heap, rest) && Tidy(sch, sid, Sub(run.store))
  }

  lemma {:induction false} ReachedOutside(sch: Schema, sid: nat, m: Store, n: nat, i: nat)
    requires WfSchema(sch) && sid < |sch| && n <= |sch[sid]| && i < |sch[sid]|
    ensures Outside(Reached, sch, sid, m, n, i) <= Outside(Stored, sch, sid, m, n, i)
    decreases n
  {
    hide IdsCell, UnionHead, CellOf, DataAt, WfSchema;
    if n == 0 {
    } else {
      ReachedOutside(sch, sid, m, n - 1, i);
      ReachedField(sch, sid, m, n - 1);
    }
  }

  lemma ReachedField(sch: Schema, sid: nat, m: Store, i: nat)
    requires WfSchema(sch) && sid < |sch| && i < |sch[sid]|
    ensures IdsField(Reached, sch, sid, m, i) <= IdsField(Stored, sch, sid, m, i)
  {
    hide IdsCell;
    assert WfMessage(sch, sid) && OkField(sch, sid, i);
    if DataAt(sch[sid], i) in m {
      ReachedCell(sch, sch[sid][i], m[DataAt(sch[sid], i)], CellOf(sch[sid], m, i).size);
    }
  }

  lemma ReachedGroup(sch: Schema, sid: nat, i: nat, c: Cell)
    requires WfSchema(sch) && sid < |sch| && i < |sch[sid]|
    ensures IdsGroup(Reached, sch, sid, i, c) <= IdsGroup(Stored, sch, sid, i, c)
  {
    hide IdsCell;
    var j := Holder(sch[sid], i, c.size);
    if j < |sch[sid]| {
      assert WfMessage(sch, sid) && OkField(sch, sid, j);
      ReachedCell(sch, sch[sid][j], c.data, c.size);
    }
  }

  /** A struct with nothing out of reach: neither in one cell nor outside it. */
  lemma TidyParts(sch: Schema, sid: nat, i: nat, run: D.Run)
    requires WfSchema(sch) && sid < |sch| && i < |sch[sid]| && SoundStruct(sch, sid, Sub(run.store))
    ensures Tidy(sch, sid, Sub(run.store)) <==>
            && TidyGroup(sch, sid, i, D.RunCell(sch[sid], run, i))
            && Outside(Stored, sch, sid, run.store, |sch[sid]|, i) ==
               Outside(Reached, sch, sid, run.store, |sch[sid]|, i)
  {
    hide SoundStruct, IdsFields, Outside, IdsGroup, SoundGroup, D.RunCell;
    var c := D.RunCell(sch[sid], run, i);
    RunCellOwn(Stored, sch, sid, i, run);
    RunCellOwn(Reached, sch, sid, i, run);
    ReachedOutside(sch, sid, run.store, |sch[sid]|, i);
    ReachedGroup(sch, sid, i, c);
    SameSums(Outside(Reached, sch, sid, run.store, |sch[sid]|, i), Outside(Stored, sch, sid, run.store, |sch[sid]|, i),
             IdsGroup(Reached, sch, sid, i, c), IdsGroup(Stored, sch, sid, i, c));
  }

  lemma {:induction false} KnownKeeps(sch: Schema, sid: nat, i: nat, wire: nat, s: seq<Byte>, run: D.Run,
                                      rest: multiset<nat>)
    requires WfSchema(sch) && sid < |sch| && i < |sch[sid]| && InOrder(sch, sid, run, rest)
    requires ReadyField(sch, sid, run, i) && KnownRef(sch, sch[sid][i]) && PayloadOnce(sch, sch[sid][i], s)
    ensures LostKnown(sch, sid, i, s, run) == multiset{}
    ensures var o := D.KnownRecord(sch, sid, i, wire, s, run);
            && Tidy(sch, sid, Sub(o.run.store))
            && (o.ok && D.FixedCount(sch[sid][i]) ==> ReadyField(sch, sid, o.run, i))
    decreases |s|, 7
  {
    hide Balanced, LostField, SoundStruct, SoundGroup, IdsFields, IdsGroup, Outside, PayloadOnce, D.FieldStep;
    var fs := sch[sid];
    if !(D.FixedCount(fs[i]) && run.fixed != i && !D.FixedDone(fs, run)) {
      var run1 := (if D.FixedCount(fs[i]) then D.EnterFixed(run, i) else run).(seen := run.seen + D.Seen(fs, i));
      var c := D.RunCell(fs, run1, i);
      var others := Outside(Stored, sch, sid, run.store, |fs|, i);
      TidyParts(sch, sid, i, run1);
      RunCellOwn(Stored, sch, sid, i, run1);
      Regroup(rest, others, IdsGroup(Stored, sch, sid, i, c));
      FieldKeeps(sch, sid, i, wire, s, c, run1.heap, rest + others);
      FieldOwn(sch, sid, i, wire, s, c, run1.heap, rest + others);
      var o := D.FieldStep(sch, sid, i, wire, s, c, run1.heap);
      PutOwn(Stored, sch, sid, run.store, i, o.cell);
      PutOwn(Reached, sch, sid, run.store, i, o.cell);
      WrittenIsReady(sch, sid, run1, i, o.cell, o.heap);
    }
  }

  /** The array whose run goes on. */
  lemma WrittenIsReady(sch: Schema, sid: nat, run: D.Run, i: nat, c: Cell, h: Heap)
    requires WfSchema(sch) && sid < |sch| && i < |sch[sid]| && (D.FixedCount(sch[sid][i]) ==> run.fixed == i)
    ensures D.FixedCount(sch[sid][i]) && ReadyCell(sch, sid, i, c) ==>
              ReadyField(sch, sid, D.WriteBack(sch[sid], run, i, c, h), i)
  {
    assert WfMessage(sch, sid);
    PutThenGet(sch, sid, run.store, i, c);
  }

  lemma OneOfTag(sch: Schema, sid: nat, i: nat, wire: nat, s: seq<Byte>, c: Cell, h: Heap)
    requires WfSchema(sch) && sid < |sch| && i < |sch[sid]| && sch[sid][i].htype.OneOf?
    ensures var o := D.FieldStep(sch, sid, i, wire, s, c, h); o.ok ==> o.cell.size == Num(sch[sid][i].tag)
  {
    hide D.DecValue, D.ReleaseUnion, AllocateField, ReleaseCell;
    assert WfMessage(sch, sid) && OkField(sch, sid, i);
    var f, u := sch[sid][i], D.ReleaseUnion(sch, sid, i, c, h);
    if f.atype.Static? {
      assert D.StaticStep(sch, f, wire, s, u.cell, u.heap).cell.size == Num(f.tag);
    } else {
      assert D.PointerStep(sch, f, wire, s, u.cell, u.heap) == D.PointerOne(sch, f, s, u.cell, u.heap);
    }
  }

  lemma KnownCell(sch: Schema, sid: nat, i: nat, wire: nat, s: seq<Byte>, run: D.Run)
    requires WfSchema(sch) && sid < |sch| && i < |sch[sid]| && D.KnownRecord(sch, sid, i, wire, s, run).ok
    ensures var o := D.KnownRecord(sch, sid, i, wire, s, run).run;
            exists c: Cell {:trigger PutCell(sch[sid], run.store, i, c)} ::
              o.store == PutCell(sch[sid], run.store, i, c)
              && (sch[sid][i].htype.OneOf? ==> c.size == Num(sch[sid][i].tag))
  {
    hide D.FieldStep, PutCell;
    var fs := sch[sid];
    var run1 := (if D.FixedCount(fs[i]) then D.EnterFixed(run, i) else run).(seen := run.seen + D.Seen(fs, i));
    var c := D.RunCell(fs, run1, i);
    if fs[i].htype.OneOf? {
      OneOfTag(sch, sid, i, wire, s, c, run1.heap);
    }
    var o := D.FieldStep(sch, sid, i, wire, s, c, run1.heap);
    assert D.KnownRecord(sch, sid, i, wire, s, run).run.store == PutCell(fs, run.store, i, o.cell);
  }

  /** A record leaves the other fields as ready as they were. */
  lemma OthersReady(sch: Schema, sid: nat, i: nat, wire: nat, s: seq<Byte>, run: D.Run, j: nat)
    requires WfSchema(sch) && sid < |sch| && i < |sch[sid]| && j < |sch[sid]| && i != j
    requires D.KnownRecord(sch, sid, i, wire, s, run).ok && ReadyField(sch, sid, run, j)
    requires D.FixedCount(sch[sid][i]) && Refills(sch, sid, j) ==> run.fixed != j
    ensures ReadyField(sch, sid, D.KnownRecord(sch, sid, i, wire, s, run).run, j)
  {
    hide D.KnownRecord, PutCell, IdsEntries, IdsDest, IdsCell, RefillsInside;
    var fs, o := sch[sid], D.KnownRecord(sch, sid, i, wire, s, run).run;
    assert WfMessage(sch, sid) && OkField(sch, sid, j);
    CounterStep(sch, sid, i, wire, s, run);
    KnownCell(sch, sid, i, wire, s, run);
    var c: Cell :| o.store == PutCell(fs, run.store, i, c) && (fs[i].htype.OneOf? ==> c.size == Num(fs[i].tag));
    if UnionHead(fs, i) == UnionHead(fs, j) {
      OneOfHead(fs, i, j);
      PutThenGet(sch, sid, run.store, i, c);
      UnionCell(sch, sid, o.store, i, j);
      assert OkField(sch, sid, i) && TagsDiffer(fs, if i < j then i else j, if i < j then j else i);
      InactiveOwnsNothing(sch, fs[j], CellOf(fs, o.store, j));
    } else {
      PutElsewhere(sch, sid, run.store, i, c, j);
    }
  }

  lemma InactiveOwnsNothing(sch: Schema, f: Field, c: Cell)
    requires WfSchema(sch) && KnownRef(sch, f) && Inactive(f, c.size)
    ensures IdsCell(Stored, sch, f, c.data, c.size) == multiset{}
  {
  }

  lemma OccursLater(e: Event, t: seq<Event>, i: nat)
    ensures Occurs([e] + t, i) <==> e.field == i || Occurs(t, i)
  {
    if Occurs(t, i) {
      var k :| 0 <= k < |t| && t[k].field == i;
      assert ([e] + t)[k + 1] == t[k];
    }
    if Occurs([e] + t, i) && e.field != i {
      var k :| 0 <= k < |[e] + t| && ([e] + t)[k].field == i;
      assert t[k - 1] == ([e] + t)[k];
    }
    assert ([e] + t)[0] == e;
  }

  /** A record that is decoded leaves the run ready for what is sent after it. */
  lemma ReadyAfter(sch: Schema, sid: nat, i: nat, wire: nat, s: seq<Byte>, run: D.Run, e: Event, t: seq<Event>)
    requires WfSchema(sch) && sid < |sch| && i < |sch[sid]| && D.KnownRecord(sch, sid, i, wire, s, run).ok
    requires e.field == i && Ready(sch, sid, run, [e] + t) && SingleRuns(sch, sid, run.fixed, [e] + t)
    requires D.FixedCount(sch[sid][i]) ==> ReadyField(sch, sid, D.KnownRecord(sch, sid, i, wire, s, run).run, i)
    ensures var o := D.KnownRecord(sch, sid, i, wire, s, run).run;
            Ready(sch, sid, o, t) && SingleRuns(sch, sid, o.fixed, t)
  {
    hide D.KnownRecord, ReadyField, Occurs, Refills;
    var o := D.KnownRecord(sch, sid, i, wire, s, run).run;
    CounterStep(sch, sid, i, wire, s, run);
    assert ([e] + t)[0] == e && ([e] + t)[1..] == t;
    forall j | 0 <= j < |sch[sid]| && Occurs(t, j) ensures ReadyField(sch, sid, o, j) {
      OccursLater(e, t, j);
      assert ReadyField(sch, sid, run, j);
      if j != i {
        OthersReady(sch, sid, i, wire, s, run, j);
      } else if !D.FixedCount(sch[sid][i]) {
        NoRefill(sch, sid, o, i);
      }
    }
  }

  lemma NoRefill(sch: Schema, sid: nat, run: D.Run, i: nat)
    requires WfSchema(sch) && sid < |sch| && i < |sch[sid]| && !Refills(sch, sid, i)
    ensures ReadyField(sch, sid, run, i)
  {
  }

  lemma {:induction false} RecordKeeps(sch: Schema, sid: nat, s: seq<Byte>, run: D.Run, t: seq<Event>,
                                       rest: multiset<nat>)
    requires WfSchema(sch) && sid < |sch| && InOrder(sch, sid, run, rest) && RecordOnce(sch, sid, s)
    requires Ready(sch, sid, run, EventOf(sch[sid], s) + t) && SingleRuns(sch, sid, run.fixed, EventOf(sch[sid], s) + t)
    ensures LostRecord(sch, sid, s, run) == multiset{}
    ensures var o := D.Record(sch, sid, s, run);
            && Tidy(sch, sid, Sub(o.run.store))
            && (o.ok && !o.stopped ==> Ready(sch, sid, o.run, t) && SingleRuns(sch, sid, o.run.fixed, t))
    decreases |s|, 8
  {
    hide Owned, LostKnown, D.KnownRecord, ReadyField, SingleRuns, Occurs, PayloadOnce;
    match D.DecodeTag(s)
    case Tag(number, wire, after) =>
      var i := FirstMatch(sch[sid], number, 0);
      if i < |sch[sid]| {
        var e := Event(i, Elements(sch[sid][i], wire, after));
        OccursLater(e, t, i);
        assert ReadyField(sch, sid, run, i);
        assert WfMessage(sch, sid) && OkField(sch, sid, i);
        KnownKeeps(sch, sid, i, wire, after, run, rest);
        if D.KnownRecord(sch, sid, i, wire, after, run).ok {
          ReadyAfter(sch, sid, i, wire, after, run, e, t);
        }
      } else {
        assert EventOf(sch[sid], s) + t == t;
        EmptyTableKeeps(sch, sid, s, run, t);
      }
    case _ =>
  }

  lemma EmptyTableKeeps(sch: Schema, sid: nat, s: seq<Byte>, run: D.Run, t: seq<Event>)
    requires WfSchema(sch) && sid < |sch| && Tidy(sch, sid, Sub(run.store))
    requires var tag := D.DecodeTag(s); tag.Tag? && FirstMatch(sch[sid], tag.number, 0) >= |sch[sid]|
    requires Ready(sch, sid, run, t) && SingleRuns(sch, sid, run.fixed, t)
    ensures LostRecord(sch, sid, s, run) == multiset{}
    ensures var o := D.Record(sch, sid, s, run).run;
            Tidy(sch, sid, Sub(o.store)) && Ready(sch, sid, o, t) && SingleRuns(sch, sid, o.fixed, t)
  {
    hide SingleRuns, ReadyField, Occurs;
  }

  /** The records that follow, going by the bytes. */
  function Later(fs: seq<Field>, s: seq<Byte>): seq<Event> {
    match RecordEnd(fs, s)
    case NoSkip => []
    case Skipped(rest) => Events(fs, rest)
  }

  lemma {:induction false} RecordsKeeps(sch: Schema, sid: nat, s: seq<Byte>, run: D.Run, rest: multiset<nat>)
    requires WfSchema(sch) && sid < |sch| && InOrder(sch, sid, run, rest) && PayloadsOnce(sch, sid, s)
    requires Ready(sch, sid, run, Events(sch[sid], s)) && SingleRuns(sch, sid, run.fixed, Events(sch[sid], s))
    ensures LostRecords(sch, sid, s, run) == multiset{} && Tidy(sch, sid, Sub(D.Records(sch, sid, s, run).run.store))
    decreases |s|, 9
  {
    hide Owned, D.Record, LostRecord, Ready, SingleRuns, RecordEnd, EventOf, Tidy, RecordOnce;
    if s == [] {
    } else {
      var o := D.Record(sch, sid, s, run);
      var t := Later(sch[sid], s);
      assert Events(sch[sid], s) == EventOf(sch[sid], s) + t;
      RecordKeeps(sch, sid, s, run, t, rest);
      RecordOwn(sch, sid, s, run, rest);
      AddNothing(rest);
      if o.ok && !o.stopped {
        RecordAdvances(sch, sid, s, run);
        RecordsKeeps(sch, sid, o.rest, o.run, rest);
      }
    }
  }

  lemma {:induction false} FieldBelow(sch: Schema, sid: nat, m: Store, i: nat, n: nat)
    requires WfSchema(sch) && sid < |sch| && i < n <= |sch[sid]|
    ensures IdsField(Stored, sch, sid, m, i) <= IdsFields(Stored, sch, sid, Sub(m), n)
    decreases n
  {
    hide IdsField, IdsFields, WfSchema;
    IdsFieldsStep(Stored, sch, sid, m, n - 1);
    if i == n - 1 {
    } else {
      FieldBelow(sch, sid, m, i, n - 1);
    }
  }

  lemma {:induction false} EntryBelow(sch: Schema, f: Field, items: seq<Slot>, k: nat, n: nat)
    requires WfSchema(sch) && KnownRef(sch, f) && k < n <= |items|
    ensures IdsDest(Stored, sch, f, items[k]) <= IdsEntries(Stored, sch, f, items, n)
    decreases n
  {
    hide IdsDest, IdsEntries, WfSchema, KnownRef;
    EntriesStep(Stored, sch, f, items, n - 1);
    if k == n - 1 {
    } else {
      EntryBelow(sch, f, items, k, n - 1);
    }
  }

  /** A struct that owns nothing, or in which no entries are filled again, may be merged
      into. */
  lemma ReadyToMerge(sch: Schema, sid: nat, m: Store, h: Heap, s: seq<Byte>)
    requires WfSchema(sch) && sid < |sch| && SoundStruct(sch, sid, Sub(m))
    requires RefillsInside(sch, sid) ==> IdsStruct(Stored, sch, sid, Sub(m)) == multiset{}
    ensures Ready(sch, sid, D.Start(m, h), Events(sch[sid], s))
  {
    forall i | 0 <= i < |sch[sid]| && Occurs(Events(sch[sid], s), i) ensures ReadyField(sch, sid, D.Start(m, h), i) {
      if Refills(sch, sid, i) {
        EmptyIsReadyField(sch, sid, m, h, i);
      }
    }
  }

  lemma EmptyIsReadyField(sch: Schema, sid: nat, m: Store, h: Heap, i: nat)
    requires WfSchema(sch) && sid < |sch| && i < |sch[sid]| && SoundStruct(sch, sid, Sub(m)) && Refills(sch, sid, i)
    requires IdsStruct(Stored, sch, sid, Sub(m)) == multiset{}
    ensures ReadyField(sch, sid, D.Start(m, h), i)
  {
    hide IdsFields, IdsEntries, IdsDest;
    var f := sch[sid][i];
    assert WfMessage(sch, sid) && OkField(sch, sid, i) && SoundField(sch, sid, Sub(m), i);
    FieldBelow(sch, sid, m, i, |sch[sid]|);
    var data := CellOf(sch[sid], m, i).data;
    if D.FixedCount(f) {
      assert SoundArray(sch, f, data, CellOf(sch[sid], m, i).size);
      forall k | 0 <= k < |data.items| ensures OwnsNothing(sch, f, data.items[k]) {
        EntryBelow(sch, f, data.items, k, f.arraySize);
      }
    }
  }

  /** `pb_decode_noinit` on top of a struct without blocks out of reach loses nothing, if
      everything is sent once and the entries to be filled own nothing yet. */
  lemma {:induction false} NoInitKeeps(sch: Schema, sid: nat, s: seq<Byte>, m: Store, h: Heap, rest: multiset<nat>)
    requires WfSchema(sch) && sid < |sch| && Owned(sch, sid, m, h, rest) && Tidy(sch, sid, Sub(m))
    requires SentOnce(sch, sid, s) && Ready(sch, sid, D.Start(m, h), Events(sch[sid], s))
    ensures LostNoInit(sch, sid, s, m, h) == multiset{} && Tidy(sch, sid, Sub(D.DecodeNoInit(sch, sid, s, m, h).store))
    decreases |s|, 10
  {
    hide Owned, Ready, SingleRuns, PayloadsOnce, LostRecords, D.Records;
    RecordsKeeps(sch, sid, s, D.Start(m, h), rest);
  }

  /** `pb_decode` into a struct whose array entries own nothing. */
  lemma {:induction false} DecodeKeeps(sch: Schema, sid: nat, s: seq<Byte>, m: Store, h: Heap, rest: multiset<nat>)
    requires WfSchema(sch) && sid < |sch| && LaidOut(sch, sid, m) && Lasting(sch, sid, m) == multiset{}
    requires Balanced(h, rest) && SentOnce(sch, sid, s)
    ensures LostDecode(sch, sid, s, m, h) == multiset{}
    ensures var o := D.Decode(sch, sid, s, m, h);
            && Tidy(sch, sid, Sub(o.store))
            && (!o.ok ==> IdsStruct(Stored, sch, sid, Sub(o.store)) == multiset{})
    decreases |s|, 11
  {
    hide Balanced, LostNoInit, D.DecodeNoInit, IdsFields, LastingFields, SentOnce, SoundStruct, Ready, ReleaseStruct;
    var m0 := Initialised(sch, sid, m);
    DefaultsSound(sch, sid, m);
    AddNothing(rest);
    ReachedFields(sch, sid, Sub(m0), |sch[sid]|);
    ReadyToMerge(sch, sid, m0, h, s);
    NoInitKeeps(sch, sid, s, m0, h, rest);
    NoInitOwn(sch, sid, s, m0, h, rest);
    var o := D.DecodeNoInit(sch, sid, s, m0, h);
    AddNothing(LostNoInit(sch, sid, s, m0, h));
    if !o.ok {
      FailureKeeps(sch, sid, Sub(o.store), o.heap);
    }
  }

  /** The release after a failure, when nothing is out of its reach. */
  lemma FailureKeeps(sch: Schema, sid: nat, x: Slot, h: Heap)
    requires WfSchema(sch) && sid < |sch| && SoundStruct(sch, sid, x) && Tidy(sch, sid, x)
    ensures var r := ReleaseStruct(sch, sid, x, h).slot;
            && r.Sub? && LostRelease(sch, sid, x, h) == multiset{}
            && IdsStruct(Stored, sch, sid, r) == multiset{} && Tidy(sch, sid, r)
  {
    hide IdsFields, ReleaseStruct, SoundStruct, EmptyStruct, Kept;
    var r := ReleaseStruct(sch, sid, x, h).slot;
    ReleaseStructEmpty(sch, sid, x, h);
    ReachedFields(sch, sid, r, |sch[sid]|);
    NothingKept(IdsStruct(Stored, sch, sid, r), IdsStruct(Reached, sch, sid, x), IdsStruct(Stored, sch, sid, x));
  }

  lemma NothingKept(after: multiset<nat>, released: multiset<nat>, before: multiset<nat>)
    requires Kept(after, released, before) && released == before
    ensures after == multiset{} && before - released - after == multiset{}
  {
    forall id: nat ensures after[id] == 0 {
      assert (after + released)[id] <= before[id];
    }
  }

  /** `pb_decode` of a message in which everything is sent once, into a struct whose array
      entries own nothing: a success owns exactly what was allocated, a failure leaves
      nothing allocated and null pointers, and a release brings back the heap of
      before. */
  lemma DecodeOnce(sch: Schema, sid: nat, s: seq<Byte>, m: Store, h: Heap, rest: multiset<nat>)
    requires WfSchema(sch) && sid < |sch| && LaidOut(sch, sid, m) && Lasting(sch, sid, m) == multiset{}
    requires Balanced(h, rest) && SentOnce(sch, sid, s)
    ensures var o := D.Decode(sch, sid, s, m, h);
            && Owned(sch, sid, o.store, o.heap, rest) && Tidy(sch, sid, Sub(o.store))
            && (!o.ok ==> EmptyStruct(sch, sid, o.store) && Balanced(o.heap, rest))
            && Balanced(ReleaseStruct(sch, sid, Sub(o.store), o.heap).heap, rest)
  {
    hide Balanced, D.Decode, LostDecode, SoundStruct, IdsFields;
    hide LaidOut, LastingFields, EmptyStruct, ReleaseStruct, SentOnce;
    AddNothing(rest);
    DecodeKeeps(sch, sid, s, m, h, rest);
    DecodeOwn(sch, sid, s, m, h, rest);
    DecodeThenRelease(sch, sid, s, m, h, rest);
  }

  /** Tables without fixed-count arrays of submessages that hold pointers. */
  predicate NoRefills(sch: Schema)
    requires WfSchema(sch)
  {
    forall sid, i {:trigger Refills(sch, sid, i)} :: 0 <= sid < |sch| && 0 <= i < |sch[sid]| ==> !Refills(sch, sid, i)
  }

  lemma {:induction false} AnyRuns(sch: Schema, sid: nat, last: int, t: seq<Event>)
    requires WfSchema(sch) && sid < |sch| && NoRefills(sch)
    ensures SingleRuns(sch, sid, last, t)
    decreases |t|
  {
    hide Refills;
    if t == [] {
    } else if t[0].field < |sch[sid]| && D.FixedCount(sch[sid][t[0].field]) {
      AnyRuns(sch, sid, t[0].field, t[1..]);
    } else {
      AnyRuns(sch, sid, last, t[1..]);
    }
  }

  lemma {:induction false} AnyPayloads(sch: Schema, sid: nat, s: seq<Byte>)
    requires WfSchema(sch) && sid < |sch| && NoRefills(sch)
    ensures PayloadsOnce(sch, sid, s)
    decreases |s|, 1
  {
    hide SentOnce, NoRefills, RecordEnd;
    if s == [] {
    } else {
      AnyRecord(sch, sid, s);
      hide RecordOnce;
      if RecordEnd(sch[sid], s).Skipped? {
        AnyPayloads(sch, sid, RecordEnd(sch[sid], s).rest);
      }
    }
  }

  lemma {:induction false} AnyRecord(sch: Schema, sid: nat, s: seq<Byte>)
    requires WfSchema(sch) && sid < |sch| && NoRefills(sch)
    ensures RecordOnce(sch, sid, s)
    decreases |s|, 0
  {
    hide SentOnce, NoRefills;
    match D.DecodeTag(s)
    case Tag(number, _, rest) =>
      var i := FirstMatch(sch[sid], number, 0);
      if i < |sch[sid]| {
        assert WfMessage(sch, sid) && OkField(sch, sid, i);
        var f := sch[sid][i];
        if f.ltype.SubMessage? && D.Delimited(rest).Chunk? {
          AnyBytes(sch, f.ptr.id, D.Delimited(rest).body);
        }
      }
    case _ =>
  }

  /** Without such arrays every input will do. */
  lemma {:induction false} AnyBytes(sch: Schema, sid: nat, s: seq<Byte>)
    requires WfSchema(sch) && sid < |sch| && NoRefills(sch)
    ensures SentOnce(sch, sid, s)
    decreases |s|, 2
  {
    AnyRuns(sch, sid, -1, Events(sch[sid], s));
    AnyPayloads(sch, sid, s);
  }
}
