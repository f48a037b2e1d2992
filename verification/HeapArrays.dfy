/** Heap arrays and heap strings: with enough memory they receive exactly what the
    records carry, in whatever form it comes. */
module HeapArrays {
  import opened Bits
  import opened Varint
  import opened Descriptor
  import opened Scalars
  import opened Allocator
  import opened Release
  import opened EncodeSpec
  import D = DecodeSpec
  import opened Locality
  import opened Merge
  import opened Arrays
  import opened DecodeOwnership

  /** The first `n` entries behind a pointer. */
  function Front(data: Slot, n: nat): seq<Slot>
    requires n <= |Items(data)|
  {
    Items(data)[..n]
  }

  function AsSlots(es: seq<int>): (r: seq<Slot>)
    ensures |r| == |es|
  {
    seq(|es|, k requires 0 <= k < |es| => Num(es[k]))
  }

  /** With memory to spare a request fails only for a size of zero. */
  lemma Granted(h: Heap, was: Slot, dataSize: nat, n: nat)
    requires Generous(h) && 0 < dataSize <= PB_SIZE_MAX && 0 < n <= PB_SIZE_MAX
    ensures var a := AllocateField(h, was, dataSize, n);
            && a.ok && Generous(a.heap) && a.slot.Block? && |a.slot.cells| == n
            && (forall k :: 0 <= k < n && k < |Items(was)| ==> a.slot.cells[k] == Items(was)[k])
  {
    assert h.grant(h.next, n * dataSize);
  }

  /** Making room keeps the elements stored so far. */
  lemma RoomKeeps(f: Field, left: nat, data: Slot, count: nat, room: nat, h: Heap)
    requires left > 0 && 0 < f.dataSize <= PB_SIZE_MAX && Room(data, count, room) && count < PB_SIZE_MAX && Generous(h)
    ensures var a := D.MakeRoom(f, left, data, count, room, h);
            && a.ok && Generous(a.heap) && Room(a.slot, count + 1, D.RoomFor(left, f.dataSize, count, room))
            && a.slot.Block? && Front(a.slot, count) == Front(data, count)
  {
    if count + 1 > room {
      GrownRoom(left, f.dataSize, count, room);
      Granted(h, data, f.dataSize, D.RoomFor(left, f.dataSize, count, room));
    }
  }

  lemma Stored(data: Slot, count: nat, x: Slot)
    requires data.Block? && count < |data.cells|
    ensures Front(D.WithItem(data, count, x), count + 1) == Front(data, count) + [x]
  {
  }

  lemma SlotsStep(es: seq<int>, a: seq<Slot>)
    requires es != []
    ensures (a + [Num(es[0])]) + AsSlots(es[1..]) == a + AsSlots(es)
  {
  }

  lemma OneTurn(f: Field, s: seq<Byte>, data: Slot, count: nat, room: nat, h: Heap)
    requires f.dataSize > 0 && s != [] && count < PB_SIZE_MAX && DecScalar(f, s, Undef).ok
    ensures var a, d := D.MakeRoom(f, |s|, data, count, room, h), DecScalar(f, s, Undef);
            a.ok ==> D.GrowItems(f, s, data, count, room, h) ==
                     D.GrowItems(f, d.rest, D.WithItem(a.slot, count, d.slot), count + 1,
                                 D.RoomFor(|s|, f.dataSize, count, room), a.heap)
  {
    hide DecScalar;
    var a := D.MakeRoom(f, |s|, data, count, room, h);
    SameScalar(f, s, ItemAt(Items(a.slot), count), Undef);
  }

  /** The loop has appended `es` to the `count` elements of `data`, or a counter
      could not express the new length. */
  ghost predicate Extended(g: D.GrowOut, data: Slot, count: nat, es: seq<int>)
    requires count <= |Items(data)|
  {
    && (g.ok <==> count + |es| <= PB_SIZE_MAX)
    && (g.ok ==> g.count == count + |es| && Room(g.data, g.count, g.count) && Generous(g.heap)
                 && Front(g.data, g.count) == Front(data, count) + AsSlots(es))
  }

  lemma ExtendStep(g: D.GrowOut, data: Slot, count: nat, es: seq<int>, data1: Slot)
    requires es != [] && count <= |Items(data)| && count + 1 <= |Items(data1)|
    requires Front(data1, count + 1) == Front(data, count) + [Num(es[0])] && Extended(g, data1, count + 1, es[1..])
    ensures Extended(g, data, count, es)
  {
    SlotsStep(es, Front(data, count));
  }

  lemma ExtendStart(f: Field, data: Slot, count: nat, room: nat, h: Heap)
    requires f.dataSize > 0 && Room(data, count, room) && Generous(h)
    ensures Extended(D.GrowItems(f, [], data, count, room, h), data, count, [])
  {
    assert Front(data, count) + AsSlots([]) == Front(data, count);
  }

  lemma ExtendFull(f: Field, s: seq<Byte>, data: Slot, room: nat, es: seq<int>, h: Heap)
    requires f.dataSize > 0 && Room(data, PB_SIZE_MAX, room) && s != [] && es != []
    ensures Extended(D.GrowItems(f, s, data, PB_SIZE_MAX, room, h), data, PB_SIZE_MAX, es)
  {
  }

  /** A packed block is appended to the array; it is refused exactly when a counter
      could not express the new length. */
  lemma {:induction false} GrowNums(f: Field, s: seq<Byte>, es: seq<int>, data: Slot, count: nat, room: nat, h: Heap)
    requires Reads(f, s, es) && 0 < f.dataSize <= PB_SIZE_MAX
    requires Room(data, count, room) && Generous(h)
    ensures Extended(D.GrowItems(f, s, data, count, room, h), data, count, es)
    decreases |es|
  {
    hide D.GrowItems, Extended, D.MakeRoom, D.RoomFor, DecScalar;
    if es == [] {
      ExtendStart(f, data, count, room, h);
    } else if count == PB_SIZE_MAX {
      ExtendFull(f, s, data, room, es, h);
    } else {
      RoomKeeps(f, |s|, data, count, room, h);
      OneTurn(f, s, data, count, room, h);
      var a := D.MakeRoom(f, |s|, data, count, room, h);
      var data1 := D.WithItem(a.slot, count, Num(es[0]));
      Stored(a.slot, count, Num(es[0]));
      GrowNums(f, DecScalar(f, s, Undef).rest, es[1..], data1, count + 1, D.RoomFor(|s|, f.dataSize, count, room),
               a.heap);
      ExtendStep(D.GrowItems(f, s, data, count, room, h), data, count, es, data1);
    }
  }

  lemma RoomAny(f: Field, left: nat, data: Slot, count: nat, room: nat, h: Heap)
    requires left > 0 && f.dataSize > 0 && Room(data, count, room) && count < PB_SIZE_MAX
    ensures var a := D.MakeRoom(f, left, data, count, room, h);
            a.ok ==>
              && Room(a.slot, count + 1, D.RoomFor(left, f.dataSize, count, room)) && a.slot.Block?
              && Front(a.slot, count) == Front(data, count)
  {
    hide AllocateField;
    if count + 1 > room {
      GrownRoom(left, f.dataSize, count, room);
      AllocateExactly(h, data, f.dataSize, D.Grown(left, f.dataSize, room));
    }
  }

  /** The loop appended `es`, which `s` starts with, and stopped at the end of the block, at
      something that is no element, at a counter that cannot grow, or, with not enough
      memory, at a request that is refused. */
  ghost predicate Stopped(f: Field, s: seq<Byte>, data: Slot, count: nat, es: seq<int>, g: D.GrowOut, h: Heap)
    requires count <= |Items(data)|
  {
    && StartsWith(f, s, es, g.rest) && g.count == count + |es| <= 0xFFFF_FFFF && g.count <= |Items(g.data)|
    && Front(g.data, g.count) == Front(data, count) + AsSlots(es)
    && (g.ok <==> g.rest == [])
    && (!g.ok && Generous(h) ==> g.count == 0xFFFF_FFFF || !DecScalar(f, g.rest, Undef).ok)
  }

  lemma StoppedStep(f: Field, s: seq<Byte>, data: Slot, count: nat, es: seq<int>, g: D.GrowOut, h: Heap,
                    data1: Slot, h1: Heap, e: int)
    requires count <= |Items(data)| && count + 1 <= |Items(data1)| && (Generous(h) ==> Generous(h1))
    requires DecScalar(f, s, Undef).ok && DecScalar(f, s, Undef).slot == Num(e)
    requires Front(data1, count + 1) == Front(data, count) + [Num(e)]
    requires Stopped(f, DecScalar(f, s, Undef).rest, data1, count + 1, es, g, h1)
    ensures Stopped(f, s, data, count, [e] + es, g, h)
  {
    hide DecScalar;
    var all := [e] + es;
    assert all[1..] == es && all[0] == e;
    SlotsStep(all, Front(data, count));
  }

  /** A packed block of any bytes, on any heap. */
  lemma {:induction false} GrowStops(f: Field, s: seq<Byte>, data: Slot, count: nat, room: nat, h: Heap)
      returns (es: seq<int>)
    requires 0 < f.dataSize <= PB_SIZE_MAX && Packable(f.ltype) && Room(data, count, room)
    ensures Stopped(f, s, data, count, es, D.GrowItems(f, s, data, count, room, h), h)
    decreases |s|
  {
    hide D.MakeRoom, D.RoomFor, DecScalar;
    es := [];
    assert Front(data, count) + AsSlots([]) == Front(data, count);
    if s != [] && count < PB_SIZE_MAX {
      var a := D.MakeRoom(f, |s|, data, count, room, h);
      var d := DecScalar(f, s, ItemAt(Items(a.slot), count));
      if Generous(h) {
        RoomKeeps(f, |s|, data, count, room, h);
      }
      if a.ok {
        RoomAny(f, |s|, data, count, room, h);
        Stored(a.slot, count, d.slot);
        SameScalar(f, s, ItemAt(Items(a.slot), count), Undef);
        var data1 := D.WithItem(a.slot, count, d.slot);
        if d.ok {
          IsNumber(f, s);
          var more := GrowStops(f, d.rest, data1, count + 1, D.RoomFor(|s|, f.dataSize, count, room), a.heap);
          StoppedStep(f, s, data, count, more, D.GrowItems(f, s, data, count, room, h), h, data1, a.heap, d.slot.n);
          es := [d.slot.n] + more;
        } else {
          assert Front(data1, count) == Front(data1, count + 1)[..count] == Front(data, count);
        }
      }
    }
  }

  /** The same for the record. */
  lemma HeapBlockStops(f: Field, s: seq<Byte>, data: Slot, k: nat, h: Heap) returns (es: seq<int>, rest: seq<Byte>)
    requires 0 < f.dataSize <= PB_SIZE_MAX && Packable(f.ltype) && Room(data, k, k)
    ensures var c, o := D.Delimited(s), D.PointerPacked(f, s, Cell(data, Num(k)), h);
            if c.NoChunk? then o == D.StepOut(false, s, Cell(data, Num(k)), h)
            else
              && StartsWith(f, c.body, es, rest) && (o.ok <==> rest == []) && (o.ok ==> o.rest == c.rest)
              && (rest != [] && Generous(h) ==> k + |es| == 0xFFFF_FFFF || !DecScalar(f, rest, Undef).ok)
              && k + |es| <= |Items(o.cell.data)| && o.cell.size == Num(k + |es|)
              && Front(o.cell.data, k + |es|) == Front(data, k) + AsSlots(es)
  {
    hide DecScalar, D.Delimited, D.GrowItems;
    es, rest := [], [];
    var c := D.Delimited(s);
    if c.Chunk? {
      es := GrowStops(f, c.body, data, k, k, h);
      rest := D.GrowItems(f, c.body, data, k, k, h).rest;
    }
  }

  // ------------------------------------------------------------------ records

  predicate HeapScalars(sch: Schema, sid: nat, i: nat)
    requires WfSchema(sch) && sid < |sch| && i < |sch[sid]|
  {
    sch[sid][i].htype.Repeated? && sch[sid][i].atype.Pointer? && Packable(sch[sid][i].ltype)
  }

  /** A step that has appended `es` to the `k` elements of `data`. */
  ghost predicate Appended(o: D.StepOut, t: seq<Byte>, data: Slot, k: nat, es: seq<int>)
    requires k <= |Items(data)|
  {
    && o.ok && o.rest == t && o.cell.size == Num(k + |es|) && Room(o.cell.data, k + |es|, k + |es|) && Generous(o.heap)
    && Front(o.cell.data, k + |es|) == Front(data, k) + AsSlots(es)
  }

  lemma BlockAppended(f: Field, s: seq<Byte>, es: seq<int>, t: seq<Byte>, data: Slot, k: nat, h: Heap)
    requires CarriesBlock(f, s, es) && 0 < f.dataSize <= PB_SIZE_MAX
    requires Room(data, k, k) && Generous(h)
    ensures var o := D.PointerPacked(f, s + t, Cell(data, Num(k)), h);
            if k + |es| <= PB_SIZE_MAX then Appended(o, t, data, k, es) else !o.ok
  {
    hide D.GrowItems, D.Delimited, Reads;
    DelimitedLocal(s, t);
    assert [] + t == t;
    GrowNums(f, D.Delimited(s).body, es, data, k, k, h);
  }

  lemma SinglePointerStep(sch: Schema, f: Field, s: seq<Byte>, data: Slot, k: nat, h: Heap)
    requires WfSchema(sch) && KnownRef(sch, f) && Packable(f.ltype)
    ensures var o := D.PointerSingle(sch, f, s, Cell(data, Num(k)), h);
            var a := AllocateField(h, data, f.dataSize, k + 1);
            var d := DecScalar(f, s, ItemAt(Items(a.slot), k));
            && (k == PB_SIZE_MAX ==> !o.ok)
            && (k < PB_SIZE_MAX && a.ok ==>
                  o == D.StepOut(d.ok, d.rest, Cell(D.WithItem(a.slot, k, d.slot), Num(k + 1)), a.heap))
  {
    hide DecScalar, AllocateField;
  }

  lemma SingleAppended(sch: Schema, f: Field, s: seq<Byte>, es: seq<int>, t: seq<Byte>, data: Slot, k: nat, h: Heap)
    requires WfSchema(sch) && KnownRef(sch, f) && CarriesOne(f, s, es) && Packable(f.ltype)
    requires 0 < f.dataSize <= PB_SIZE_MAX && Room(data, k, k) && Generous(h)
    ensures var o := D.PointerSingle(sch, f, s + t, Cell(data, Num(k)), h);
            if k + 1 <= PB_SIZE_MAX then Appended(o, t, data, k, es) else !o.ok
  {
    hide D.PointerSingle, DecScalar, KnownRef;
    SinglePointerStep(sch, f, s + t, data, k, h);
    if k < PB_SIZE_MAX {
      Granted(h, data, f.dataSize, k + 1);
      var a := AllocateField(h, data, f.dataSize, k + 1);
      SameScalar(f, s, ItemAt(Items(a.slot), k), Undef);
      ScalarLocal(f, s, t, ItemAt(Items(a.slot), k));
      Stored(a.slot, k, Num(es[0]));
      hide AllocateField;
      assert [] + t == t;
      assert AsSlots(es) == [Num(es[0])] && Front(a.slot, k) == Front(data, k);
    }
  }

  lemma PartAppended(sch: Schema, sid: nat, i: nat, p: Part, t: seq<Byte>, data: Slot, k: nat, h: Heap)
    requires WfSchema(sch) && sid < |sch| && i < |sch[sid]| && HeapScalars(sch, sid, i)
    requires Carries(sch[sid][i], p.record, p.elems) && Room(data, k, k) && Generous(h)
    ensures var tag := D.DecodeTag(p.record);
            var o := D.FieldStep(sch, sid, i, tag.wire, tag.rest + t, Cell(data, Num(k)), h);
            if k + |p.elems| <= PB_SIZE_MAX then Appended(o, t, data, k, p.elems) else !o.ok
  {
    var f, tag := sch[sid][i], D.DecodeTag(p.record);
    assert WfMessage(sch, sid) && OkField(sch, sid, i);
    if tag.wire == WT_STRING {
      BlockAppended(f, tag.rest, p.elems, t, data, k, h);
    } else {
      SingleAppended(sch, f, tag.rest, p.elems, t, data, k, h);
    }
  }

  /** The array of field `i` holds exactly `xs`. */
  ghost predicate Contains(sch: Schema, sid: nat, i: nat, run: D.Run, xs: seq<Slot>)
    requires WfSchema(sch) && sid < |sch| && i < |sch[sid]|
  {
    var c := CellOf(sch[sid], run.store, i);
    c.size == Num(|xs|) && Room(c.data, |xs|, |xs|) && Front(c.data, |xs|) == xs && Generous(run.heap)
  }

  lemma PartRecorded(sch: Schema, sid: nat, i: nat, p: Part, t: seq<Byte>, xs: seq<Slot>, run: D.Run)
    requires WfSchema(sch) && sid < |sch| && i < |sch[sid]| && HeapScalars(sch, sid, i)
    requires Carries(sch[sid][i], p.record, p.elems) && Contains(sch, sid, i, run, xs)
    ensures var o := D.Record(sch, sid, p.record + t, run);
            && (o.ok <==> |xs| + |p.elems| <= PB_SIZE_MAX)
            && (o.ok ==> !o.stopped && o.rest == t && Contains(sch, sid, i, o.run, xs + AsSlots(p.elems)))
  {
    hide D.FieldStep, D.KnownRecord, D.Record, Carries, D.DecodeTag, WfTable, PutCell, AsSlots, Front;
    var tag, k := D.DecodeTag(p.record), |xs|;
    assert WfMessage(sch, sid) && OkField(sch, sid, i);
    PartIsKnown(sch, sid, i, p, t, run);
    RepeatedRecord(sch, sid, i, tag.wire, tag.rest + t, run, k);
    var data := CellOf(sch[sid], run.store, i).data;
    PartAppended(sch, sid, i, p, t, data, k, run.heap);
    var o := D.FieldStep(sch, sid, i, tag.wire, tag.rest + t, Cell(data, Num(k)), run.heap);
    if o.ok {
      PutThenGet(sch, sid, run.store, i, o.cell);
    }
  }

  /** Any mixture of packed blocks and single elements is appended to a heap array,
      element by element, and refused exactly when there are too many to count. */
  lemma {:induction false} HeapMixture(sch: Schema, sid: nat, i: nat, parts: seq<Part>, xs: seq<Slot>, run: D.Run)
    requires WfSchema(sch) && sid < |sch| && i < |sch[sid]| && HeapScalars(sch, sid, i)
    requires parts != [] && ValidParts(sch[sid][i], parts) && Contains(sch, sid, i, run, xs)
    ensures var o := D.Records(sch, sid, PartsBytes(parts), run);
            && (o.ok <==> |xs| + |AllElems(parts)| <= PB_SIZE_MAX)
            && (o.ok ==> ToTheEnd(o) && Contains(sch, sid, i, o.run, xs + AsSlots(AllElems(parts))))
    decreases |parts|
  {
    hide D.Record, Carries, Contains;
    var f := sch[sid][i];
    var first, tail := parts[0].elems, PartsBytes(parts[1..]);
    PartRecorded(sch, sid, i, parts[0], tail, xs, run);
    PartNonEmpty(f, parts[0]);
    TwoParts(sch, sid, parts[0].record, tail, run);
    var o := D.Record(sch, sid, parts[0].record + tail, run);
    if |parts| == 1 {
      assert parts[1..] == [] && first + [] == first;
    } else if o.ok {
      HeapMixture(sch, sid, i, parts[1..], xs + AsSlots(first), o.run);
      assert (xs + AsSlots(first)) + AsSlots(AllElems(parts[1..])) == xs + AsSlots(first + AllElems(parts[1..]));
    }
  }

  // ------------------------------------------------------------------ strings

  lemma GrantedBytes(h: Heap, was: Slot, bytes: nat)
    requires Generous(h) && 0 < bytes <= BYTES_HEADER + PB_SIZE_MAX
    ensures var a := AllocateField(h, was, bytes, 1);
            a.ok && Generous(a.heap) && a.slot.Block?
  {
    hide Resize;
    assert h.grant(h.next, 1 * bytes);
  }

  /** A heap string or bytes array receives a block with exactly the bytes sent. */
  lemma HeapString(sch: Schema, f: Field, b: seq<Byte>, t: seq<Byte>, dest: Slot, h: Heap)
    requires WfSchema(sch) && KnownRef(sch, f) && OwnBuffer(f) && Generous(h)
    requires |b| <= if f.ltype.Bytes? then PB_SIZE_MAX else PB_SIZE_MAX - 1
    ensures var v := D.DecValue(sch, f, EncString(b) + t, dest, h);
            v.ok && v.rest == t && v.slot.Block? && v.slot.cells == [Buf(b)] && Generous(v.heap)
  {
    hide AllocateField;
    StringParsed(b, t);
    U32Small(|b| + 1);
    GrantedBytes(h, dest, if f.ltype.Bytes? then BYTES_HEADER + |b| else |b| + 1);
    assert D.DecValue(sch, f, EncString(b) + t, dest, h) == D.DecBuffer(f, EncString(b) + t, dest, h);
  }
}
