/** A message that loses a block: two runs of one fixed-count array, with a run of
    another one between them. */
module Leaking {
  import opened Bits
  import opened Varint
  import opened Descriptor
  import opened FieldIterator
  import opened Defaults
  import opened Allocator
  import opened EncodeSpec
  import D = DecodeSpec
  import opened Ownership
  import opened DefaultOwnership
  import opened Losses
  import DecodeOwnership
  import Arrays

  /** A string on the heap. */
  const HOLDER: seq<Field> := [Field(1, String, Optional, Pointer, 0, 0, 1, 0, NoPtr)]
  /** One `Holder`, and one bool, both as fixed-count arrays. */
  const OUTER: seq<Field> :=
    [Field(1, SubMessage, Repeated, Static, 0, 0, 8, 1, Fields(0)), Field(2, Bool, Repeated, Static, 0, 0, 1, 1, NoPtr)]
  const TABLES: Schema := [HOLDER, OUTER]

  lemma Addresses()
    ensures DataAt(HOLDER, 0) == 0 && DataAt(OUTER, 0) == 0 && DataAt(OUTER, 1) == 8
    ensures SizeAt(HOLDER, 0) == 0 && SizeAt(OUTER, 0) == 0 && SizeAt(OUTER, 1) == 8
  {
  }

  lemma Tables()
    ensures WfSchema(TABLES)
  {
    Addresses();
    assert OkField(TABLES, 0, 0) && OkField(TABLES, 1, 0) && OkField(TABLES, 1, 1);
    assert WfTable(HOLDER) && WfTable(OUTER);
    assert WfMessage(TABLES, 0) && WfMessage(TABLES, 1);
  }

  lemma OneByte(b: Byte, t: seq<Byte>)
    requires 0 < b < 128
    ensures Varint32([b] + t) == Got(b, t)
  {
    RoundTrip32(b, t);
    assert EncVarint(b) == [b];
  }

  lemma Matched()
    ensures FirstMatch(HOLDER, 1, 0) == 0 && FirstMatch(OUTER, 1, 0) == 0 && FirstMatch(OUTER, 2, 0) == 1
  {
    assert FirstMatch(OUTER, 2, 0) == FirstMatch(OUTER, 2, 1);
  }

  /** The heap with one more block, of two bytes. */
  function After(h: Heap): Heap {
    h.(live := h.live + {h.next}, next := h.next + 1, bytes := h.bytes[h.next := 2])
  }

  lemma BlockGranted(h: Heap)
    requires h.grant(h.next, 2)
    ensures var a := AllocateField(h, Nil, 2, 1);
            a.ok && a.slot.Block? && a.slot.id == h.next && a.heap == After(h)
  {
    assert h.live - {} + {h.next} == h.live + {h.next};
  }

  lemma StringValue(h: Heap)
    requires h.grant(h.next, 2)
    ensures D.DecBuffer(HOLDER[0], [1, 0x78], Nil, h) ==
            D.ValueOut(true, [], Block(h.next, [Buf([0x78])]), After(h))
  {
    hide Varint32, AllocateField;
    OneByte(1, [0x78]);
    assert [1, 0x78] == [1] + [0x78];
    BlockGranted(h);
    assert [0x78][..1] == [0x78] && U32(2) == 2;
  }

  /** The string "x" is allocated. */
  lemma StringArrives(h: Heap)
    requires h.grant(h.next, 2)
    ensures WfSchema(TABLES)
    ensures var block := Block(h.next, [Buf([0x78])]);
            D.DecodeNoInit(TABLES, 0, [0x0A, 1, 0x78], map[0 := Nil], h) ==
            D.MessageOut(true, [], map[0 := block], After(h))
  {
    hide Varint32, DataAt, SizeAt, FirstMatch, WfSchema, D.DecBuffer;
    Tables();
    Addresses();
    Matched();
    var s: seq<Byte> := [0x0A, 1, 0x78];
    OneByte(0x0A, [1, 0x78]);
    assert s == [0x0A] + [1, 0x78];
    var run := D.Start(map[0 := Nil], h);
    var v := D.DecBuffer(HOLDER[0], [1, 0x78], Nil, h);
    StringValue(h);
    assert D.FieldStep(TABLES, 0, 0, 2, [1, 0x78], D.RunCell(HOLDER, run, 0), h) ==
           D.PointerOne(TABLES, HOLDER[0], [1, 0x78], D.RunCell(HOLDER, run, 0), h);
    var o := D.Record(TABLES, 0, s, run);
    assert o.ok && o.rest == [] && o.run.heap == v.heap && o.run.store == map[0 := v.slot];
  }

  /** A record of the array of `Holder`s, which starts its run. */
  lemma ElementRecord(body: seq<Byte>, t: seq<Byte>, run: D.Run, x: Store, o: D.MessageOut)
    requires WfSchema(TABLES) && |body| < 128
    requires 0 in run.store && run.store[0] == Arr([Sub(x)]) && run.fixed != 0 && D.FixedDone(OUTER, run)
    requires o == D.DecodeNoInit(TABLES, 0, body, Initialised(TABLES, 0, x), run.heap) && o.ok
    ensures D.Record(TABLES, 1, [0x0A] + (EncString(body) + t), run) ==
            D.RunOut(true, false, t, D.Run(run.store[0 := Arr([Sub(o.store)])], o.heap, 0, 1, run.seen))
  {
    hide Varint32, DataAt, SizeAt, FirstMatch, WfSchema, D.DecodeNoInit, SetDefaults, EncString, D.FieldStep, PutCell;
    hide D.DecValue, D.DecSub, D.StaticSingle, D.RunCell, D.WriteBack, D.Seen;
    Addresses();
    Matched();
    OneByte(0x0A, EncString(body) + t);
    var s := EncString(body) + t;
    var run1 := D.EnterFixed(run, 0).(seen := run.seen + D.Seen(OUTER, 0));
    var c := Cell(Arr([Sub(x)]), Num(0));
    ElementStep(body, t, x, run.heap, o);
    ElementCell(run1, x, o.store, o.heap);
    assert run1.heap == run.heap && D.RunCell(OUTER, run1, 0) == c && D.Seen(OUTER, 0) == {};
    assert run1.seen == run.seen;
    assert D.Record(TABLES, 1, [0x0A] + s, run) == D.KnownRecord(TABLES, 1, 0, 2, s, run);
  }

  lemma ElementCell(run1: D.Run, x: Store, m: Store, h: Heap)
    requires run1.fixed == 0 && run1.fixedSize == 0 && 0 in run1.store && run1.store[0] == Arr([Sub(x)])
    ensures D.RunCell(OUTER, run1, 0) == Cell(Arr([Sub(x)]), Num(0)) && D.Seen(OUTER, 0) == {}
    ensures D.WriteBack(OUTER, run1, 0, Cell(Arr([Sub(m)]), Num(1)), h) ==
            D.Run(run1.store[0 := Arr([Sub(m)])], h, 0, 1, run1.seen)
  {
    Addresses();
  }

  lemma ElementStep(body: seq<Byte>, t: seq<Byte>, x: Store, h: Heap, o: D.MessageOut)
    requires WfSchema(TABLES) && |body| < 128
    requires o == D.DecodeNoInit(TABLES, 0, body, Initialised(TABLES, 0, x), h) && o.ok
    ensures D.FieldStep(TABLES, 1, 0, 2, EncString(body) + t, Cell(Arr([Sub(x)]), Num(0)), h) ==
            D.StepOut(true, t, Cell(Arr([Sub(o.store)]), Num(1)), o.heap)
  {
    hide Varint32, WfSchema, D.DecodeNoInit, SetDefaults, EncString, D.Delimited;
    Arrays.ChunkRoundTrip(body, t);
    var s, c := EncString(body) + t, Cell(Arr([Sub(x)]), Num(0));
    var v := D.DecValue(TABLES, OUTER[0], s, Sub(x), h);
    assert v == D.DecSub(TABLES, OUTER[0], s, Sub(x), h) == D.ValueOut(true, t, Sub(o.store), o.heap);
    assert D.FieldStep(TABLES, 1, 0, 2, s, c, h) == D.StaticSingle(TABLES, OUTER[0], s, c, h);
    assert SetItem([Sub(x)], 0, v.slot) == [Sub(o.store)];
  }

  /** A record of the bool, in between. */
  lemma BetweenRecord(t: seq<Byte>, run: D.Run)
    requires WfSchema(TABLES) && run.fixed == 0 && run.fixedSize == 1
    requires 8 in run.store && run.store[8] == Arr([Num(0)])
    ensures D.Record(TABLES, 1, [0x10] + ([1] + t), run) ==
            D.RunOut(true, false, t, D.Run(run.store[8 := Arr([Num(1)])], run.heap, 1, 1, run.seen))
  {
    Addresses();
    Matched();
    OneByte(0x10, [1] + t);
    OneByte(1, t);
    hide Varint32, DataAt, SizeAt, FirstMatch, WfSchema;
    var s := [1] + t;
    var run1 := D.EnterFixed(run, 1).(seen := run.seen + D.Seen(OUTER, 1));
    var c := D.RunCell(OUTER, run1, 1);
    assert c == Cell(Arr([Num(0)]), Num(0));
    assert D.FieldStep(TABLES, 1, 1, 0, s, c, run.heap) == D.StaticSingle(TABLES, OUTER[1], s, c, run.heap);
    assert SetItem([Num(0)], 0, Num(1)) == [Num(1)];
    assert run.seen + D.Seen(OUTER, 1) == run.seen;
  }

  /** Zeroed memory, which initialising leaves as it is. */
  lemma Zeroed()
    ensures WfSchema(TABLES)
    ensures ZeroStruct(TABLES, 1, 2) == map[0 := Arr([Sub(map[0 := Nil])]), 8 := Arr([Num(0)])]
    ensures Initialised(TABLES, 1, ZeroStruct(TABLES, 1, 2)) == ZeroStruct(TABLES, 1, 2)
    ensures forall x: Slot {:trigger Initialised(TABLES, 0, map[0 := x])} ::
              Initialised(TABLES, 0, map[0 := x]) == map[0 := Nil]
  {
    Tables();
    Addresses();
    hide WfSchema, DataAt, SizeAt;
    assert ZeroStruct(TABLES, 0, 1) == map[0 := Nil];
    assert ZeroItem(TABLES, 1, 0) == Sub(map[0 := Nil]) && ZeroItem(TABLES, 1, 1) == Num(0);
    assert Repeat(Sub(map[0 := Nil]), 1) == [Sub(map[0 := Nil])] && Repeat(Num(0), 1) == [Num(0)];
    assert ZeroCell(TABLES, 1, 0).data == Arr([Sub(map[0 := Nil])]) && ZeroCell(TABLES, 1, 1).data == Arr([Num(0)]);
    assert ZeroStruct(TABLES, 1, 0) == map[];
    var one := ZeroStruct(TABLES, 1, 1);
    assert one == map[0 := Arr([Sub(map[0 := Nil])])];
    var both := ZeroStruct(TABLES, 1, 2);
    assert both == one[8 := Arr([Num(0)])];
    assert SetDefaults(TABLES, 1, both, 1) == both;
    forall x: Slot ensures Initialised(TABLES, 0, map[0 := x]) == map[0 := Nil] {
      assert SetDefaults(TABLES, 0, map[0 := x], 1) == map[0 := Nil];
    }
  }

  const MESSAGE: seq<Byte> := [0x0A, 3, 0x0A, 1, 0x78, 0x10, 1, 0x0A, 0]

  /** The message split at its three records. */
  lemma Split()
    ensures EncString([0x0A, 1, 0x78]) == [3, 0x0A, 1, 0x78] && EncString([]) == [0]
    ensures MESSAGE == [0x0A] + (EncString([0x0A, 1, 0x78]) + ([0x10] + ([1] + ([0x0A] + (EncString([]) + [])))))
  {
    U32Small(0);
    U32Small(3);
    assert EncVarint(3) == [3] && EncVarint(0) == [0];
  }

  lemma Decoded(h: Heap) returns (o: D.MessageOut)
    requires h.grant(h.next, 2)
    ensures WfSchema(TABLES) && o == D.DecodeNoInit(TABLES, 1, MESSAGE, ZeroStruct(TABLES, 1, 2), h)
    ensures o.ok && o.rest == [] && o.heap == After(h)
    ensures o.store == map[0 := Arr([Sub(map[0 := Nil])]), 8 := Arr([Num(1)])]
  {
    Zeroed();
    Split();
    hide WfSchema, D.Record, ZeroStruct, SetDefaults, EncString;
    var zero := ZeroStruct(TABLES, 1, 2);
    var run := D.Start(zero, h);
    StringArrives(h);
    var third := EncString([]) + [];
    var second := [0x10] + ([1] + ([0x0A] + third));
    var e1 := D.DecodeNoInit(TABLES, 0, [0x0A, 1, 0x78], map[0 := Nil], h);
    ElementRecord([0x0A, 1, 0x78], second, run, map[0 := Nil], e1);
    var run1 := D.Record(TABLES, 1, MESSAGE, run).run;
    BetweenRecord([0x0A] + third, run1);
    var run2 := D.Record(TABLES, 1, second, run1).run;
    var x := e1.store;
    var e3 := D.DecodeNoInit(TABLES, 0, [], map[0 := Nil], run2.heap);
    assert D.Records(TABLES, 0, [], D.Start(map[0 := Nil], run2.heap)).run.store == map[0 := Nil];
    assert e3 == D.MessageOut(true, [], map[0 := Nil], run2.heap);
    ElementRecord([], [], run2, x, e3);
    var run3 := D.Record(TABLES, 1, [0x0A] + third, run2).run;
    assert D.Records(TABLES, 1, [], run3) == D.RunOut(true, false, [], run3);
    assert D.Records(TABLES, 1, [0x0A] + third, run2) == D.RunOut(true, false, [], run3);
    assert D.Records(TABLES, 1, second, run1) == D.RunOut(true, false, [], run3);
    assert D.Records(TABLES, 1, MESSAGE, run) == D.RunOut(true, false, [], run3);
    o := D.DecodeNoInit(TABLES, 1, MESSAGE, zero, h);
  }

  lemma NothingHeld()
    ensures WfSchema(TABLES)
    ensures IdsStruct(Stored, TABLES, 1, Sub(map[0 := Arr([Sub(map[0 := Nil])]), 8 := Arr([Num(1)])])) == multiset{}
  {
    Tables();
    Addresses();
    hide WfSchema, DataAt, SizeAt;
    assert IdsFields(Stored, TABLES, 0, Sub(map[0 := Nil]), 1) == multiset{};
    var f, x := OUTER[0], [Sub(map[0 := Nil])];
    assert IdsDest(Stored, TABLES, f, x[0]) == multiset{};
    assert IdsEntries(Stored, TABLES, f, x, 0) == multiset{} && IdsEntries(Stored, TABLES, f, x, 1) == multiset{};
    var src := Sub(map[0 := Arr(x), 8 := Arr([Num(1)])]);
    assert IdsFields(Stored, TABLES, 1, src, 1) == multiset{};
  }

  /** `pb_decode` of this message into zeroed memory succeeds and takes every byte. The
      block of the string is then allocated, and no pointer to it is left: the second
      run of the array has initialised the entry that held it. */
  lemma SecondRunLeaks(h: Heap, rest: multiset<nat>)
    requires Balanced(h, rest) && h.grant(h.next, 2)
    ensures WfSchema(TABLES) && LaidOut(TABLES, 1, ZeroStruct(TABLES, 1, 2))
    ensures var o := D.Decode(TABLES, 1, MESSAGE, ZeroStruct(TABLES, 1, 2), h);
            && o.ok && o.rest == [] && h.next in o.heap.live
            && IdsStruct(Stored, TABLES, 1, Sub(o.store)) == multiset{}
            && LostDecode(TABLES, 1, MESSAGE, ZeroStruct(TABLES, 1, 2), h) == multiset{h.next}
  {
    Zeroed();
    var n := Decoded(h);
    NothingHeld();
    hide WfSchema, D.DecodeNoInit, ZeroStruct, SetDefaults, LostDecode, IdsFields, LastingFields, LaidOut;
    ZeroIsEmpty(TABLES, 1);
    AddNothing(rest);
    DecodeOwnership.DecodeOwn(TABLES, 1, MESSAGE, ZeroStruct(TABLES, 1, 2), h, rest);
    var o := D.Decode(TABLES, 1, MESSAGE, ZeroStruct(TABLES, 1, 2), h);
    var lost := LostDecode(TABLES, 1, MESSAGE, ZeroStruct(TABLES, 1, 2), h);
    OneMore(h, o.heap, rest, lost);
  }

  /** What the account says when one block has been added. */
  lemma OneMore(h: Heap, g: Heap, rest: multiset<nat>, lost: multiset<nat>)
    requires Balanced(h, rest) && Balanced(g, rest + lost + multiset{}) && g.live == h.live + {h.next}
    ensures lost == multiset{h.next}
  {
    forall id: nat ensures lost[id] == multiset{h.next}[id] {
      assert rest[id] == if id in h.live then 1 else 0;
      assert (rest + lost + multiset{})[id] == rest[id] + lost[id];
    }
  }
}
