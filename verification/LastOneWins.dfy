/** A singular field that is sent again: the last value wins, in has_ and which_ too, and
    submessages are merged where the library merges them. */
module LastOneWins {
  import opened Bits
  import opened Varint
  import opened Descriptor
  import opened FieldIterator
  import opened Scalars
  import opened Defaults
  import opened Allocator
  import opened Release
  import opened EncodeSpec
  import D = DecodeSpec
  import opened Structs
  import opened Merge
  import opened Arrays
  import opened Concatenation
  import HeapArrays
  import BlockRoom
  import RoundTrip
  import FieldOrder

  /** What a step leaves in has_ or which_. */
  function SizeAfter(f: Field, c: Cell): Slot {
    match f.htype
    case Optional => if f.sizeOffset != 0 && f.atype.Static? then Num(1) else c.size
    case OneOf => Num(f.tag)
    case _ => c.size
  }

  /** Room is made in a union: the value is decoded into a cell of which the old member is
      gone, or into the same member. Outside unions nothing happens. */
  function Entered(sch: Schema, sid: nat, i: nat, c: Cell, h: Heap): D.UnionOut
    requires WfSchema(sch) && sid < |sch| && i < |sch[sid]|
  {
    if sch[sid][i].htype.OneOf? then D.ReleaseUnion(sch, sid, i, c, h) else D.UnionOut(true, c, h)
  }

  lemma StaticIs(sch: Schema, sid: nat, i: nat, wire: nat, s: seq<Byte>, c: Cell, h: Heap)
    requires WfSchema(sch) && sid < |sch| && i < |sch[sid]| && sch[sid][i].atype.Static? && !sch[sid][i].htype.Repeated?
    requires Entered(sch, sid, i, c, h).ok
    ensures KnownRef(sch, sch[sid][i])
    ensures var f, u := sch[sid][i], Entered(sch, sid, i, c, h);
            var start := if f.htype.OneOf? && f.ltype.SubMessage? && f.ptr.Fields? && Number(u.cell.size) != f.tag
                         then FreshStruct(sch, f.ptr.id) else u.cell.data;
            var v := D.DecValue(sch, f, s, start, u.heap);
            D.FieldStep(sch, sid, i, wire, s, c, h) ==
            D.StepOut(v.ok, v.rest, Cell(v.slot, SizeAfter(f, u.cell)), v.heap)
  {
    hide D.DecValue, D.ReleaseUnion;
    assert WfMessage(sch, sid) && OkField(sch, sid, i);
  }

  lemma EnteredSize(sch: Schema, sid: nat, i: nat, c: Cell, h: Heap)
    requires WfSchema(sch) && sid < |sch| && i < |sch[sid]|
    ensures SizeAfter(sch[sid][i], Entered(sch, sid, i, c, h).cell) == SizeAfter(sch[sid][i], c)
    ensures Generous(h) ==> Generous(Entered(sch, sid, i, c, h).heap)
  {
    if sch[sid][i].htype.OneOf? {
      BlockRoom.UnionRoom(sch, sid, i, c, h);
    }
    hide D.ReleaseUnion;
  }

  // ------------------------------------------------------------------- values

  /** An encoded value of a required, optional or oneof field in the struct: whatever was in
      the cell, it holds that value afterwards, and has_ and which_ say so. */
  lemma StaticValueWins(sch: Schema, sid: nat, i: nat, wire: nat, x: Slot, t: seq<Byte>, c: Cell, h: Heap)
    requires WfSchema(sch) && sid < |sch| && i < |sch[sid]| && sch[sid][i].atype.Static? && !sch[sid][i].htype.Repeated?
    requires ValidItem(sch, sid, i, x) && !sch[sid][i].ltype.SubMessage? && Entered(sch, sid, i, c, h).ok
    ensures KnownRef(sch, sch[sid][i]) && EncValue(sch, sch[sid][i], x).ok
    ensures var f := sch[sid][i];
            var o := D.FieldStep(sch, sid, i, wire, EncValue(sch, f, x).out + t, c, h);
            o.ok && o.rest == t && o.cell == Cell(x, SizeAfter(f, c)) && o.heap == Entered(sch, sid, i, c, h).heap
  {
    hide D.FieldStep, Entered, EncValue, D.DecValue, SizeAfter, ValidItem;
    var u := Entered(sch, sid, i, c, h);
    RoundTrip.PlainRoundTrip(sch, sid, i, x, t, u.cell.data, u.heap);
    StaticIs(sch, sid, i, wire, EncValue(sch, sch[sid][i], x).out + t, c, h);
    EnteredSize(sch, sid, i, c, h);
  }

  lemma PointerIs(sch: Schema, sid: nat, i: nat, wire: nat, s: seq<Byte>, c: Cell, h: Heap)
    requires WfSchema(sch) && sid < |sch| && i < |sch[sid]| && sch[sid][i].atype.Pointer?
    requires !sch[sid][i].htype.Repeated?
    requires Entered(sch, sid, i, c, h).ok
    ensures KnownRef(sch, sch[sid][i])
    ensures var u := Entered(sch, sid, i, c, h);
            D.FieldStep(sch, sid, i, wire, s, c, h) == D.PointerOne(sch, sch[sid][i], s, u.cell, u.heap)
  {
    hide D.PointerOne, D.ReleaseUnion;
    assert WfMessage(sch, sid) && OkField(sch, sid, i);
  }

  /** The same behind a pointer, with memory to spare: the cell points to a block that holds
      the value. */
  lemma PointerValueWins(sch: Schema, sid: nat, i: nat, wire: nat, x: Slot, t: seq<Byte>, c: Cell, h: Heap)
    requires WfSchema(sch) && sid < |sch| && i < |sch[sid]| && sch[sid][i].atype.Pointer?
    requires !sch[sid][i].htype.Repeated?
    requires ValidItem(sch, sid, i, x) && !sch[sid][i].ltype.SubMessage? && Entered(sch, sid, i, c, h).ok && Generous(h)
    ensures KnownRef(sch, sch[sid][i]) && EncValue(sch, sch[sid][i], x).ok
    ensures var f := sch[sid][i];
            var o := D.FieldStep(sch, sid, i, wire, EncValue(sch, f, x).out + t, c, h);
            o.ok && o.rest == t && o.cell.size == SizeAfter(f, c) && o.cell.data.Block? && o.cell.data.cells == [x]
  {
    hide D.FieldStep, Entered, EncValue, D.DecValue, ValidItem, AllocateField;
    var f, u := sch[sid][i], Entered(sch, sid, i, c, h);
    assert WfMessage(sch, sid) && OkField(sch, sid, i);
    var s := EncValue(sch, f, x).out + t;
    PointerIs(sch, sid, i, wire, s, c, h);
    EnteredSize(sch, sid, i, c, h);
    if OwnBuffer(f) {
      RoundTrip.BufferTarget(sch, sid, i, x, t, u.cell.data, u.heap);
    } else {
      HeapArrays.Granted(u.heap, u.cell.data, f.dataSize, 1);
      var a := AllocateField(u.heap, u.cell.data, f.dataSize, 1);
      var item := D.NewItem(sch, f, ItemAt(Items(a.slot), 0));
      RoundTrip.PlainRoundTrip(sch, sid, i, x, t, item, a.heap);
      assert a.slot.cells[0 := x] == [x];
    }
  }

  /** Any form of a number that the decoder accepts wins likewise. */
  lemma NumberWins(sch: Schema, sid: nat, i: nat, wire: nat, s: seq<Byte>, c: Cell, h: Heap)
    requires WfSchema(sch) && sid < |sch| && i < |sch[sid]| && sch[sid][i].atype.Static? && !sch[sid][i].htype.Repeated?
    requires Packable(sch[sid][i].ltype) && Entered(sch, sid, i, c, h).ok && DecScalar(sch[sid][i], s, Undef).ok
    ensures var f, d := sch[sid][i], DecScalar(sch[sid][i], s, Undef);
            var o := D.FieldStep(sch, sid, i, wire, s, c, h);
            o.ok && o.rest == d.rest && o.cell == Cell(d.slot, SizeAfter(f, c))
  {
    hide D.FieldStep, Entered, DecScalar, SizeAfter;
    StaticIs(sch, sid, i, wire, s, c, h);
    EnteredSize(sch, sid, i, c, h);
    SameScalar(sch[sid][i], s, Entered(sch, sid, i, c, h).cell.data, Undef);
  }

  // -------------------------------------------------------------- submessages

  /** Where a submessage in the struct is decoded: into the one that is there, or, in a union
      of which it was not the current member, into a new one. */
  function Into(sch: Schema, sid: nat, i: nat, c: Cell): Slot
    requires WfSchema(sch) && sid < |sch| && i < |sch[sid]|
  {
    assert WfMessage(sch, sid) && OkField(sch, sid, i);
    var f := sch[sid][i];
    if f.ltype.SubMessage? && f.htype.OneOf? && Number(c.size) != f.tag then FreshStruct(sch, f.ptr.id) else c.data
  }

  /** A submessage is merged into the one of the same member that is there; if another
      member was current, it starts anew. */
  lemma SubmessageMerges(sch: Schema, sid: nat, i: nat, wire: nat, b: seq<Byte>, t: seq<Byte>, c: Cell, h: Heap)
    requires WfSchema(sch) && sid < |sch| && i < |sch[sid]| && sch[sid][i].atype.Static? && !sch[sid][i].htype.Repeated?
    requires sch[sid][i].ltype.SubMessage? && Entered(sch, sid, i, c, h).ok && |b| < TWO32
    requires Into(sch, sid, i, c).Sub?
    ensures KnownRef(sch, sch[sid][i]) && sch[sid][i].ptr.Fields?
    ensures var f, u := sch[sid][i], Entered(sch, sid, i, c, h);
            var m := D.DecodeNoInit(sch, f.ptr.id, b, Into(sch, sid, i, c).members, u.heap);
            var o := D.FieldStep(sch, sid, i, wire, EncString(b) + t, c, h);
            && o.ok == m.ok && (o.ok ==> o.rest == t)
            && o.cell == Cell(Sub(m.store), SizeAfter(f, c)) && o.heap == m.heap
  {
    hide D.FieldStep, D.DecodeNoInit, D.ReleaseUnion, SizeAfter, SetDefaults, ZeroStruct, EncString;
    var f, u := sch[sid][i], Entered(sch, sid, i, c, h);
    assert WfMessage(sch, sid) && OkField(sch, sid, i);
    StaticIs(sch, sid, i, wire, EncString(b) + t, c, h);
    EnteredSize(sch, sid, i, c, h);
    SameStart(sch, sid, i, c, h);
    ChunkRoundTrip(b, t);
    var start := Into(sch, sid, i, c);
    assert D.DecValue(sch, f, EncString(b) + t, start, u.heap) == D.DecSub(sch, f, EncString(b) + t, start, u.heap);
  }

  lemma SameStart(sch: Schema, sid: nat, i: nat, c: Cell, h: Heap)
    requires WfSchema(sch) && sid < |sch| && i < |sch[sid]| && Entered(sch, sid, i, c, h).ok
    ensures Into(sch, sid, i, Entered(sch, sid, i, c, h).cell) == Into(sch, sid, i, c) ||
            !sch[sid][i].ltype.SubMessage?
  {
    if sch[sid][i].htype.OneOf? {
      BlockRoom.UnionRoom(sch, sid, i, c, h);
      WhichKept(sch, sid, i, c, h);
    }
  }

  lemma WhichKept(sch: Schema, sid: nat, i: nat, c: Cell, h: Heap)
    requires WfSchema(sch) && sid < |sch| && i < |sch[sid]| && sch[sid][i].htype.OneOf?
    ensures Number(c.size) == sch[sid][i].tag ==> D.ReleaseUnion(sch, sid, i, c, h).cell == c
    ensures Number(c.size) != sch[sid][i].tag && D.ReleaseUnion(sch, sid, i, c, h).ok ==>
              Number(D.ReleaseUnion(sch, sid, i, c, h).cell.size) != sch[sid][i].tag
  {
    hide ReleaseCell;
    assert WfMessage(sch, sid);
    var was := Number(c.size);
    if was > 0 && was != sch[sid][i].tag {
      var j := FirstMatch(sch[sid], was, 0);
      if j < |sch[sid]| && UnionHead(sch[sid], j) == UnionHead(sch[sid], i) {
        assert OkField(sch, sid, j);
        if j != i {
          OneOfHead(sch[sid], j, i);
        }
        BlockRoom.KeptWhich(sch, sch[sid][j], c, h);
      }
    }
  }

  /** Two records of a submessage do what one with the bytes of both does, as long as no
      fixed-count array ends the first and begins the second. */
  lemma TwoSubmessages(sch: Schema, sid: nat, i: nat, wire: nat, b1: seq<Byte>, b2: seq<Byte>, t: seq<Byte>, c: Cell,
                       h: Heap)
    requires WfSchema(sch) && sid < |sch| && i < |sch[sid]| && sch[sid][i].atype.Static? && !sch[sid][i].htype.Repeated?
    requires sch[sid][i].ltype.SubMessage? && Entered(sch, sid, i, c, h).ok && |b1 + b2| < TWO32
    requires Into(sch, sid, i, c).Sub?
    requires KnownRef(sch, sch[sid][i]) && sch[sid][i].ptr.Fields?
    requires var o := D.Records(sch, sch[sid][i].ptr.id, b1,
                                D.Start(Into(sch, sid, i, c).members, Entered(sch, sid, i, c, h).heap)); !o.stopped
    requires Compatible(sch[sch[sid][i].ptr.id], b1, b2)
    ensures var one := D.FieldStep(sch, sid, i, wire, EncString(b1) + t, c, h);
            var two := D.FieldStep(sch, sid, i, wire, EncString(b2) + t, one.cell, one.heap);
            one.ok && two.ok ==> D.FieldStep(sch, sid, i, wire, EncString(b1 + b2) + t, c, h) == two
  {
    hide D.FieldStep, D.DecodeNoInit, SizeAfter, EncString, D.ReleaseUnion, Compatible;
    var f, id, u := sch[sid][i], sch[sid][i].ptr.id, Entered(sch, sid, i, c, h);
    assert WfMessage(sch, sid) && OkField(sch, sid, i);
    SubmessageMerges(sch, sid, i, wire, b1, t, c, h);
    var one := D.FieldStep(sch, sid, i, wire, EncString(b1) + t, c, h);
    if one.ok {
      SetAlready(sch, sid, i, one.cell, one.heap, c);
      SubmessageMerges(sch, sid, i, wire, b2, t, one.cell, one.heap);
      SubmessageMerges(sch, sid, i, wire, b1 + b2, t, c, h);
      ConcatenationIsMerge(sch, id, b1, b2, Into(sch, sid, i, c).members, u.heap);
    }
  }

  /** After a record of the field, it is the current member of its union. */
  lemma SetAlready(sch: Schema, sid: nat, i: nat, d: Cell, h: Heap, c: Cell)
    requires WfSchema(sch) && sid < |sch| && i < |sch[sid]| && d.size == SizeAfter(sch[sid][i], c)
    ensures Entered(sch, sid, i, d, h) == D.UnionOut(true, d, h)
    ensures Into(sch, sid, i, d) == d.data && SizeAfter(sch[sid][i], d) == SizeAfter(sch[sid][i], c)
  {
    assert WfMessage(sch, sid) && OkField(sch, sid, i);
  }

  /** Behind a pointer nothing is merged: the old submessage is released and the new one
      starts from its defaults in a block of its own. */
  lemma PointerSubmessageReplaced(sch: Schema, sid: nat, i: nat, wire: nat, b: seq<Byte>, t: seq<Byte>, c: Cell,
                                  h: Heap)
    requires WfSchema(sch) && sid < |sch| && i < |sch[sid]| && sch[sid][i].atype.Pointer?
    requires !sch[sid][i].htype.Repeated?
    requires sch[sid][i].ltype.SubMessage? && Entered(sch, sid, i, c, h).ok && |b| < TWO32 && Generous(h)
    ensures KnownRef(sch, sch[sid][i]) && sch[sid][i].ptr.Fields?
    ensures var f := sch[sid][i];
            var o := D.FieldStep(sch, sid, i, wire, EncString(b) + t, c, h);
            exists g: Heap {:trigger D.DecodeNoInit(sch, f.ptr.id, b, Members(FreshStruct(sch, f.ptr.id)), g)} ::
              var m := D.DecodeNoInit(sch, f.ptr.id, b, Members(FreshStruct(sch, f.ptr.id)), g);
              && Generous(g) && o.ok == m.ok && (o.ok ==> o.rest == t) && o.cell.size == SizeAfter(f, c)
              && o.heap == m.heap
              && o.cell.data.Block? && o.cell.data.cells == [Sub(m.store)]
  {
    hide D.FieldStep, D.DecodeNoInit, D.ReleaseUnion, SetDefaults, ZeroStruct, EncString, AllocateField, ReleaseCell;
    var f, u := sch[sid][i], Entered(sch, sid, i, c, h);
    var s := EncString(b) + t;
    assert WfMessage(sch, sid) && OkField(sch, sid, i);
    PointerIs(sch, sid, i, wire, s, c, h);
    EnteredSize(sch, sid, i, c, h);
    ChunkRoundTrip(b, t);
    var r := if !u.cell.data.Nil? then ReleaseCell(sch, f, u.cell.data, u.cell.size, u.heap) else
      CellHeap(u.cell, u.heap);
    if !u.cell.data.Nil? {
      BlockRoom.ReleaseCellSizes(sch, f, u.cell.data, u.cell.size, u.heap);
    }
    HeapArrays.Granted(r.heap, r.cell.data, f.dataSize, 1);
    var a := AllocateField(r.heap, r.cell.data, f.dataSize, 1);
    var item := D.NewItem(sch, f, ItemAt(Items(a.slot), 0));
    var m := D.DecodeNoInit(sch, f.ptr.id, b, Members(item), a.heap);
    assert D.DecValue(sch, f, s, item, a.heap) == D.DecSub(sch, f, s, item, a.heap);
    assert a.slot.cells[0 := Sub(m.store)] == [Sub(m.store)];
  }

  // ----------------------------------------------------------------- messages

  /** The value a decoder of one item stores does not depend on what was there. */
  lemma SameValue(sch: Schema, f: Field, s: seq<Byte>, a: Slot, b: Slot, h: Heap)
    requires WfSchema(sch) && KnownRef(sch, f) && !f.ltype.SubMessage? && f.atype.Static?
    ensures var d, e := D.DecValue(sch, f, s, a, h), D.DecValue(sch, f, s, b, h);
            d.ok == e.ok && d.heap == e.heap == h && (d.ok ==> d == e)
  {
    hide DecScalar, D.DecBuffer, D.DecFixedBytes;
    if Packable(f.ltype) {
      SameScalar(f, s, a, b);
    } else {
      SameBuffer(f, s, a, b, h);
    }
  }

  lemma SameBuffer(f: Field, s: seq<Byte>, a: Slot, b: Slot, h: Heap)
    requires f.atype.Static?
    ensures var d, e := D.DecBuffer(f, s, a, h), D.DecBuffer(f, s, b, h);
            d.ok == e.ok && d.heap == e.heap == h && (d.ok ==> d == e)
    ensures var d, e := D.DecFixedBytes(f, s, a, h), D.DecFixedBytes(f, s, b, h);
            d.ok == e.ok && d.heap == e.heap == h && (d.ok ==> d == e)
  {
    hide Varint32, U32;
  }

  lemma AgainCell(sch: Schema, sid: nat, i: nat, wire1: nat, s1: seq<Byte>, wire2: nat, s2: seq<Byte>, c: Cell, h: Heap)
    requires WfSchema(sch) && sid < |sch| && i < |sch[sid]| && sch[sid][i].atype.Static? && !sch[sid][i].htype.Repeated?
    requires !sch[sid][i].ltype.SubMessage?
    ensures var one := D.FieldStep(sch, sid, i, wire1, s1, c, h);
            var two := D.FieldStep(sch, sid, i, wire2, s2, one.cell, one.heap);
            one.ok && two.ok ==> D.FieldStep(sch, sid, i, wire2, s2, c, h) == two
  {
    hide D.DecValue, Entered;
    var f, u := sch[sid][i], Entered(sch, sid, i, c, h);
    var one := D.FieldStep(sch, sid, i, wire1, s1, c, h);
    if one.ok {
      FieldEntered(sch, sid, i, wire1, s1, c, h);
      hide D.FieldStep;
      StaticIs(sch, sid, i, wire1, s1, c, h);
      EnteredSize(sch, sid, i, c, h);
      SetAlready(sch, sid, i, one.cell, one.heap, c);
      StaticIs(sch, sid, i, wire2, s2, one.cell, one.heap);
      StaticIs(sch, sid, i, wire2, s2, c, h);
      SameValue(sch, f, s1, u.cell.data, u.cell.data, u.heap);
      SameValue(sch, f, s2, one.cell.data, u.cell.data, u.heap);
    }
  }

  lemma FieldEntered(sch: Schema, sid: nat, i: nat, wire: nat, s: seq<Byte>, c: Cell, h: Heap)
    requires WfSchema(sch) && sid < |sch| && i < |sch[sid]| && D.FieldStep(sch, sid, i, wire, s, c, h).ok
    ensures Entered(sch, sid, i, c, h).ok
  {
    hide D.StaticStep, D.PointerStep, D.ReleaseUnion;
  }

  lemma PutTwice(sch: Schema, sid: nat, m: Store, i: nat, a: Cell, c: Cell)
    requires WfSchema(sch) && sid < |sch| && i < |sch[sid]|
    ensures PutCell(sch[sid], PutCell(sch[sid], m, i, a), i, c) == PutCell(sch[sid], m, i, c)
    ensures CellOf(sch[sid], PutCell(sch[sid], m, i, c), i) == NormalCell(sch[sid][i], c)
  {
    assert WfMessage(sch, sid);
    PutThenGet(sch, sid, m, i, c);
  }

  lemma StepIgnoresSize(sch: Schema, sid: nat, i: nat, wire: nat, s: seq<Byte>, c: Cell, h: Heap)
    requires WfSchema(sch) && sid < |sch| && i < |sch[sid]| && sch[sid][i].atype.Static? && !sch[sid][i].htype.Repeated?
    ensures var f := sch[sid][i];
            var o, p := D.FieldStep(sch, sid, i, wire, s, c, h), D.FieldStep(sch, sid, i, wire, s, NormalCell(f, c), h);
            && NormalCell(f, o.cell) == NormalCell(f, p.cell) && o.ok == p.ok && o.rest == p.rest && o.heap == p.heap
  {
    hide D.DecValue;
    assert WfMessage(sch, sid) && OkField(sch, sid, i);
  }

  /** Two records of the same singular number, string or bytes field, one after the other:
      decoding both does what decoding the second one alone does, to the struct, the
      heap and everything that follows. */
  lemma LastRecordWins(sch: Schema, sid: nat, i: nat, before: seq<Byte>, r1: seq<Byte>, r2: seq<Byte>, after: seq<Byte>,
                       start: D.Run)
    requires WfSchema(sch) && sid < |sch|
    requires FieldOrder.RecordOf(sch[sid], r1, i) && FieldOrder.RecordOf(sch[sid], r2, i)
    requires sch[sid][i].atype.Static? && !sch[sid][i].htype.Repeated? && !sch[sid][i].ltype.SubMessage?
    requires ToTheEnd(D.Records(sch, sid, before, start))
    requires FieldOrder.StepsApart(sch, sid, i, i, r1, r2, D.Records(sch, sid, before, start).run)
    ensures D.Records(sch, sid, before + (r1 + (r2 + after)), start) ==
            D.Records(sch, sid, before + (r2 + after), start)
  {
    hide D.Record, D.DecodeTag;
    var run := D.Records(sch, sid, before, start).run;
    RecordsConcat(sch, sid, before, r1 + (r2 + after), start);
    RecordsConcat(sch, sid, before, r2 + after, start);
    hide D.Records;
    var run1 := D.Record(sch, sid, r1, run).run;
    FieldOrder.NotStopped(sch, sid, r1, i, run);
    FieldOrder.NotStopped(sch, sid, r2, i, run1);
    FieldOrder.NotStopped(sch, sid, r2, i, run);
    RecordAgain(sch, sid, i, r1, r2, run);
    FieldOrder.TwoRecords(sch, sid, r1, r2, after, run);
    FieldOrder.OneRecord(sch, sid, r2, after, run);
  }

  lemma RecordAgain(sch: Schema, sid: nat, i: nat, r1: seq<Byte>, r2: seq<Byte>, run: D.Run)
    requires WfSchema(sch) && sid < |sch|
    requires FieldOrder.RecordOf(sch[sid], r1, i) && FieldOrder.RecordOf(sch[sid], r2, i)
    requires sch[sid][i].atype.Static? && !sch[sid][i].htype.Repeated? && !sch[sid][i].ltype.SubMessage?
    requires FieldOrder.StepsApart(sch, sid, i, i, r1, r2, run)
    ensures D.Record(sch, sid, r2, run) == D.Record(sch, sid, r2, D.Record(sch, sid, r1, run).run)
  {
    hide D.Record, D.DecodeTag, D.FieldStep, PutCell, CellOf, NormalCell;
    var fs := sch[sid];
    FieldOrder.RecordIsStep(sch, sid, r1, i, run);
    FieldOrder.RecordIsStep(sch, sid, r2, i, run);
    var run1 := D.Record(sch, sid, r1, run).run;
    FieldOrder.RecordIsStep(sch, sid, r2, i, run1);
    var t1, t2 := D.DecodeTag(r1), D.DecodeTag(r2);
    var c := CellOf(fs, run.store, i);
    var one := D.FieldStep(sch, sid, i, t1.wire, t1.rest, c, run.heap);
    PutTwice(sch, sid, run.store, i, one.cell, one.cell);
    AgainCell(sch, sid, i, t1.wire, t1.rest, t2.wire, t2.rest, c, run.heap);
    StepIgnoresSize(sch, sid, i, t2.wire, t2.rest, one.cell, one.heap);
    var two := D.FieldStep(sch, sid, i, t2.wire, t2.rest, one.cell, one.heap);
    var two1 := D.FieldStep(sch, sid, i, t2.wire, t2.rest, CellOf(fs, run1.store, i), run1.heap);
    PutTwice(sch, sid, run.store, i, one.cell, two1.cell);
    SameNormal(fs, run.store, i, two.cell, two1.cell);
    assert run.seen + D.Seen(fs, i) + D.Seen(fs, i) == run.seen + D.Seen(fs, i);
  }

  lemma SameNormal(fs: seq<Field>, m: Store, i: nat, a: Cell, b: Cell)
    requires i < |fs| && NormalCell(fs[i], a) == NormalCell(fs[i], b)
    ensures PutCell(fs, m, i, a) == PutCell(fs, m, i, b)
  {
  }
}
