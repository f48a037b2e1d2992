/** What the decoder accepts, as conditions on the input: when a string fits, when a
    number does, and when a whole message passes its final checks. */
module Acceptance {
  import opened Bits
  import opened Varint
  import opened Descriptor
  import opened FieldIterator
  import opened Scalars
  import opened Defaults
  import opened Allocator
  import opened Release
  import D = DecodeSpec
  import opened Trace

  // ------------------------------------------------------------------ varints

  /** `pb_decode_varint` accepts exactly the inputs that have a byte below 128 among the
      first ten. */
  lemma TenBytes(s: seq<Byte>)
    ensures Varint64(s).Got? <==> exists k :: 0 <= k < 10 && k < |s| && s[k] < 128
  {
    VarLenMeaning(s);
    var n := VarLen(s);
    if Varint64(s).Got? {
      assert s[n - 1] < 128;
    }
    if exists k :: 0 <= k < 10 && k < |s| && s[k] < 128 {
      var k :| 0 <= k < 10 && k < |s| && s[k] < 128;
      FirstShort(s, k);
    }
  }

  lemma {:induction false} FirstShort(s: seq<Byte>, k: nat)
    requires k < |s| && s[k] < 128
    ensures 0 < VarLen(s) <= k + 1
  {
    if k == 0 || s[0] < 128 {
    } else {
      FirstShort(s[1..], k - 1);
    }
  }

  // ------------------------------------------------------------------ numbers

  /** Any varint read as a number of the member's type: a bool is whether it is not zero;
      an integer is congruent to it modulo 2^64, or 2^32 for a signed member of fewer
      than eight bytes, and in range; anything else is an error. */
  lemma NumberRead(f: Field, s: seq<Byte>, was: Slot)
    requires WfWidth(f)
    ensures f.ltype.Bool? ==>
              match Varint32(s)
              case Got(v, r) => DecScalar(f, s, was) == ItemOut(true, r, Num(if v > 0 then 1 else 0))
              case Fail => !DecScalar(f, s, was).ok
    ensures f.ltype.UVarInt? ==>
              match Varint64(s)
              case Got(v, r) =>
                if InRange(f, v) then DecScalar(f, s, was) == ItemOut(true, r, Num(v)) else !DecScalar(f, s, was).ok
              case Fail => !DecScalar(f, s, was).ok
    ensures f.ltype.SVarInt? ==>
              match Varint64(s)
              case Got(v, r) =>
                var n := if v % 2 == 1 then -(v / 2) - 1 else v / 2;
                if InRange(f, n) then DecScalar(f, s, was) == ItemOut(true, r, Num(n)) else !DecScalar(f, s, was).ok
              case Fail => !DecScalar(f, s, was).ok
  {
    hide Varint32, Varint64, UnZigZag;
    if (f.ltype.UVarInt? || f.ltype.SVarInt?) && Varint64(s).Got? {
      NarrowingExact(f, s, was);
      UnZigZagValue(Varint64(s).value);
    }
  }

  lemma SignedRead(f: Field, s: seq<Byte>, was: Slot)
    requires WfWidth(f) && f.ltype.VarInt? && Varint64(s).Got?
    ensures var v, r := Varint64(s).value, Varint64(s).rest;
            var n := if f.dataSize == 8 then Signed(v, 0x1_0000_0000_0000_0000)
                     else Signed(v % 0x1_0000_0000, 0x1_0000_0000);
            if InRange(f, n) then DecScalar(f, s, was) == ItemOut(true, r, Num(n)) else !DecScalar(f, s, was).ok
  {
    hide Varint64;
    NarrowingExact(f, s, was);
  }

  /** A word of `modulus` values as a two's complement number. */
  function Signed(v: nat, modulus: nat): int {
    if 2 * v < modulus then v else v - modulus
  }

  /** A number that does not fit is stored all the same, cut to the width of the member,
      before it is reported; without a varint nothing is stored. */
  lemma RefusedNumber(f: Field, s: seq<Byte>, was: Slot)
    requires WfWidth(f) && (f.ltype.VarInt? || f.ltype.UVarInt? || f.ltype.SVarInt?) && !DecScalar(f, s, was).ok
    ensures DecScalar(f, s, was).rest == s
    ensures match Varint64(s)
            case Fail => DecScalar(f, s, was).slot == was
            case Got(v, _) =>
              var modulus := if f.dataSize == 1 then 0x100 else if f.dataSize == 2 then 0x1_0000 else 0x1_0000_0000;
              var n := if !f.ltype.SVarInt? then v else if v % 2 == 1 then -(v / 2) - 1 else v / 2;
              DecScalar(f, s, was).slot == Num(if f.ltype.UVarInt? then n % modulus else Signed(n % modulus, modulus))
  {
    hide Varint64, UnZigZag;
    if Varint64(s).Got? {
      var v := Varint64(s).value;
      NarrowingExact(f, s, was);
      UnZigZagValue(v);
      CutTwice(v);
    }
  }

  /** Cutting a number to 32 bits changes nothing below. */
  lemma CutTwice(v: nat)
    ensures Signed(v % 0x1_0000_0000, 0x1_0000_0000) % 0x100 == v % 0x100
    ensures Signed(v % 0x1_0000_0000, 0x1_0000_0000) % 0x1_0000 == v % 0x1_0000
  {
    var q, w := v / 0x1_0000_0000, v % 0x1_0000_0000;
    assert v == 0x100 * (0x100_0000 * q) + w == 0x1_0000 * (0x1_0000 * q) + w;
    ModOfSum(0x100_0000 * q, w, 0x100);
    ModOfSum(0x1_0000 * q, w, 0x1_0000);
    ModOfSum(-0x100_0000, w, 0x100);
    ModOfSum(-0x1_0000, w, 0x1_0000);
  }

  // ------------------------------------------------------- strings and bytes

  /** A bytes array in the struct is accepted exactly when its bytes are there and fit
      behind the four bytes of the size; a string, when there is room for its
      terminator. */
  lemma StaticBuffer(f: Field, s: seq<Byte>, dest: Slot, h: Heap)
    requires (f.ltype.Bytes? || f.ltype.String?) && f.atype.Static? && f.dataSize <= 0xFFFF_FFFF
    ensures match Varint32(s)
            case Fail => !D.DecBuffer(f, s, dest, h).ok && D.DecBuffer(f, s, dest, h).slot == dest
            case Got(n, r) =>
              var fits, v := n + (if f.ltype.Bytes? then 4 else 1) <= f.dataSize, D.DecBuffer(f, s, dest, h);
              if n <= |r| && fits then v == D.ValueOut(true, r[n..], Buf(r[..n]), h)
              else !v.ok && v.heap == h && v.slot == if fits then Undef else dest
  {
    hide Varint32;
    Varint32Bound(s);
    if Varint32(s).Got? {
      var n := Varint32(s).value;
      U32Small(n + 1);
      assert n + 1 == TWO32 ==> U32(n + 1) == 0;
    }
  }

  /** On the heap it is accepted exactly when its bytes are there and that many bytes, with
      the four of the size or the terminator, are granted; a string of 2^32 - 1 bytes is
      refused. Nothing is asked for bytes that are not there, and a refusal keeps the old
      block. */
  lemma HeapBuffer(f: Field, s: seq<Byte>, dest: Slot, h: Heap)
    requires (f.ltype.Bytes? || f.ltype.String?) && f.atype.Pointer?
    ensures match Varint32(s)
            case Fail => !D.DecBuffer(f, s, dest, h).ok && D.DecBuffer(f, s, dest, h).heap == h
            case Got(n, r) =>
              var bytes := n + if f.ltype.Bytes? then 4 else 1;
              var v := D.DecBuffer(f, s, dest, h);
              && (v.ok <==> n <= |r| && (f.ltype.String? ==> n < 0xFFFF_FFFF) && h.grant(h.next, bytes))
              && (v.ok ==> v.rest == r[n..] && v.slot == Block(h.next, [Buf(r[..n])]))
              && (!v.ok ==> v.slot == dest && (v.heap.live, v.heap.fault) == (h.live, h.fault))
              && (n > |r| ==> v.heap == h)
  {
    hide Varint32, AllocateField;
    Varint32Bound(s);
    if Varint32(s).Got? {
      var n := Varint32(s).value;
      U32Small(n + 1);
      assert n + 1 == TWO32 ==> U32(n + 1) == 0;
      AllocateExactly(h, dest, if f.ltype.Bytes? then 4 + n else U32(n + 1), 1);
    }
  }

  /** Bytes of fixed length are accepted when exactly that many are there, or none: then
      they are all zero. */
  lemma FixedBytes(f: Field, s: seq<Byte>, dest: Slot, h: Heap)
    requires f.ltype.FixedLengthBytes? && f.dataSize <= 0xFFFF_FFFF
    ensures match Varint32(s)
            case Fail => D.DecFixedBytes(f, s, dest, h) == D.ValueOut(false, s, dest, h)
            case Got(n, r) =>
              if n == 0 then D.DecFixedBytes(f, s, dest, h) == D.ValueOut(true, r, Buf(seq(f.dataSize, _ => 0)), h)
              else if n == f.dataSize && n <= |r| then
                D.DecFixedBytes(f, s, dest, h) == D.ValueOut(true, r[n..], Buf(r[..n]), h)
              else D.DecFixedBytes(f, s, dest, h) == D.ValueOut(false, s, dest, h)
  {
    hide Varint32;
  }

  // ------------------------------------------------------------------- unions

  /** A record of a union member is refused exactly when which_ names no member of the
      union. */
  lemma UnionRefused(sch: Schema, sid: nat, i: nat, c: Cell, h: Heap)
    requires WfSchema(sch) && sid < |sch| && i < |sch[sid]| && sch[sid][i].htype.OneOf?
    ensures var fs, was := sch[sid], Number(c.size);
            D.ReleaseUnion(sch, sid, i, c, h).ok <==>
            was == 0 || exists j {:trigger fs[j]} ::
              0 <= j < |fs| && UnionHead(fs, j) == UnionHead(fs, i) && fs[j].tag == was
    ensures var u := D.ReleaseUnion(sch, sid, i, c, h); !u.ok ==> u.cell == c && u.heap == h
  {
    hide ReleaseCell, UnionHead;
    var fs, was := sch[sid], Number(c.size);
    assert WfMessage(sch, sid);
    if exists j {:trigger fs[j]} :: 0 <= j < |fs| && UnionHead(fs, j) == UnionHead(fs, i) && fs[j].tag == was {
      var j :| 0 <= j < |fs| && UnionHead(fs, j) == UnionHead(fs, i) && fs[j].tag == was;
      assert OkField(sch, sid, j);
      MatchIsUnique(fs, was, j);
    }
    if was > 0 {
      FirstMatchExact(fs, was, 0);
    }
    assert OkField(sch, sid, i);
  }

  // ----------------------------------------------------------------- messages

  /** The required fields before position `n`. */
  function RequiredAmong(fs: seq<Field>, n: nat): set<nat>
    requires n <= |fs|
  {
    set j: nat | j < n && fs[j].htype.Required?
  }

  lemma {:induction false} RequiredCounted(fs: seq<Field>, n: nat)
    requires n <= |fs|
    ensures RequiredBefore(fs, n) == |RequiredAmong(fs, n)|
  {
    if n > 0 {
      RequiredCounted(fs, n - 1);
      assert RequiredAmong(fs, n) ==
             RequiredAmong(fs, n - 1) + if fs[n - 1].htype.Required? then {n - 1} else {};
    }
  }

  /** One of the first 64 required fields of the table. */
  predicate Tracked(fs: seq<Field>, i: nat)
    requires i < |fs|
  {
    fs[i].htype.Required? && |RequiredAmong(fs, i)| < 64
  }

  /** `pb_decode_noinit` accepts exactly the inputs whose records all decode, in which every
      run of a fixed-count array fills it, and in which each of the first 64 required
      fields occurs; the last two are read off the bytes. */
  lemma AcceptedExactly(sch: Schema, sid: nat, s: seq<Byte>, m: Store, h: Heap)
    requires WfSchema(sch) && sid < |sch|
    ensures var fs, t := sch[sid], Events(sch[sid], s);
            D.DecodeNoInit(sch, sid, s, m, h).ok <==>
            && D.Records(sch, sid, s, D.Start(m, h)).ok && CompleteRuns(fs, FixedEvents(fs, t))
            && forall i {:trigger Tracked(fs, i)} :: 0 <= i < |fs| && Tracked(fs, i) ==> Occurs(t, i)
  {
    hide D.Records, CompleteRuns, FixedEvents, Events, D.RequiredSeen, Occurs;
    var fs, t := sch[sid], Events(sch[sid], s);
    if D.Records(sch, sid, s, D.Start(m, h)).ok {
      FixedCountExact(sch, sid, s, m, h);
      RequiredExact(sch, sid, s, m, h);
      TrackedSupplied(fs, t);
    }
  }

  lemma TrackedSupplied(fs: seq<Field>, t: seq<Event>)
    ensures (forall i {:trigger Supplied(fs, t, i)} :: 0 <= i < |fs| ==> Supplied(fs, t, i)) <==>
            forall i {:trigger Tracked(fs, i)} :: 0 <= i < |fs| && Tracked(fs, i) ==> Occurs(t, i)
  {
    hide Occurs;
    if forall i {:trigger Supplied(fs, t, i)} :: 0 <= i < |fs| ==> Supplied(fs, t, i) {
      forall i | 0 <= i < |fs| && Tracked(fs, i) ensures Occurs(t, i) {
        RequiredCounted(fs, i);
        assert Supplied(fs, t, i);
      }
    }
    if forall i {:trigger Tracked(fs, i)} :: 0 <= i < |fs| && Tracked(fs, i) ==> Occurs(t, i) {
      forall i | 0 <= i < |fs| ensures Supplied(fs, t, i) {
        RequiredCounted(fs, i);
        assert Tracked(fs, i) || !Tracked(fs, i);
      }
    }
  }

  /** `pb_decode` accepts what `pb_decode_noinit` accepts on top of the defaults. */
  lemma DecodeAccepts(sch: Schema, sid: nat, s: seq<Byte>, m: Store, h: Heap)
    requires WfSchema(sch) && sid < |sch|
    ensures D.Decode(sch, sid, s, m, h).ok <==> D.DecodeNoInit(sch, sid, s, Initialised(sch, sid, m), h).ok
  {
    hide D.DecodeNoInit, ReleaseStruct, SetDefaults;
  }

  /** One turn of the message loop: an end of the input inside a key, or a key that is no
      varint, is an error; a zero key ends the message; a field that is not in the table
      is skipped, or an error when it cannot be. */
  lemma RecordOutcome(sch: Schema, sid: nat, s: seq<Byte>, run: D.Run)
    requires WfSchema(sch) && sid < |sch|
    ensures var o, p := D.Record(sch, sid, s, run), Varint32(s);
            if p.Fail? then !o.ok && o.run == run
            else
              var skip := D.SkipField(p.value % 8, p.rest);
              && (o.ok && o.stopped <==> p.value == 0)
              && (p.value == 0 ==> o == D.RunOut(true, true, p.rest, run))
              && (p.value != 0 && !Known(sch[sid], p.value / 8) ==>
                    if skip.Skipped? then o == D.RunOut(true, false, skip.rest, run) else !o.ok && o.run == run)
  {
    hide Varint32, D.KnownRecord, D.TerminatorRecord, D.SkipField;
  }

  /** A record of a fixed-count array, while the run of another one is not complete, is an
      error before it is looked at. */
  lemma RunCutShort(sch: Schema, sid: nat, i: nat, wire: nat, s: seq<Byte>, run: D.Run)
    requires WfSchema(sch) && sid < |sch| && i < |sch[sid]|
    requires sch[sid][i].htype.Repeated? && sch[sid][i].sizeOffset == 0
    requires 0 <= run.fixed < |sch[sid]| && run.fixed != i && run.fixedSize != sch[sid][run.fixed].arraySize
    ensures !D.KnownRecord(sch, sid, i, wire, s, run).ok && D.KnownRecord(sch, sid, i, wire, s, run).run == run
  {
    hide D.FieldStep;
  }

  /** A submessage is accepted exactly when its bytes are all there and its decoder accepts
      them. */
  lemma SubmessageAccepted(sch: Schema, f: Field, s: seq<Byte>, dest: Slot, h: Heap)
    requires WfSchema(sch) && KnownRef(sch, f) && f.ltype.SubMessage? && f.ptr.Fields?
    ensures var v, c := D.DecValue(sch, f, s, dest, h), D.Delimited(s);
            if c.NoChunk? then !v.ok && v.slot == dest && v.heap == h
            else
              var m := if f.htype.Repeated? then D.Decode(sch, f.ptr.id, c.body, Members(dest), h)
                       else D.DecodeNoInit(sch, f.ptr.id, c.body, Members(dest), h);
              v.ok == m.ok && v.slot == Sub(m.store) && v.heap == m.heap && (v.ok ==> v.rest == c.rest)
  {
    hide D.Delimited, D.Decode, D.DecodeNoInit;
    assert D.DecValue(sch, f, s, dest, h) == D.DecSub(sch, f, s, dest, h);
  }

  // ------------------------------------------------------------------- arrays

  /** An element of a static array, of any type: accepted exactly when there is room for it
      and its decoder accepts it; it is stored behind the others, which stay. It is counted
      whether it is accepted or not. */
  lemma ElementAccepted(sch: Schema, sid: nat, i: nat, wire: nat, s: seq<Byte>, items: seq<Slot>, k: nat, h: Heap)
    requires WfSchema(sch) && sid < |sch| && i < |sch[sid]| && sch[sid][i].atype.Static? && sch[sid][i].htype.Repeated?
    requires !(wire == 2 && Packable(sch[sid][i].ltype)) && |items| == sch[sid][i].arraySize
    ensures KnownRef(sch, sch[sid][i])
    ensures var f := sch[sid][i];
            var o := D.FieldStep(sch, sid, i, wire, s, Cell(Arr(items), Num(k)), h);
            if k >= |items| then !o.ok && o.cell == Cell(Arr(items), Num(k + 1)) && o.heap == h
            else
              var v := D.DecValue(sch, f, s, items[k], h);
              && o.ok == v.ok && o.heap == v.heap && (o.ok ==> o.rest == v.rest)
              && o.cell == Cell(Arr(items[k := v.slot]), Num(k + 1))
  {
    hide D.DecValue;
    assert WfMessage(sch, sid) && OkField(sch, sid, i);
    assert D.FieldStep(sch, sid, i, wire, s, Cell(Arr(items), Num(k)), h) ==
           D.StaticSingle(sch, sch[sid][i], s, Cell(Arr(items), Num(k)), h);
  }

  /** An element of a heap array: accepted exactly when a counter can express the new length,
      the bytes for one more entry are granted and its decoder accepts it; the others stay.
      It is counted once it has an entry. */
  lemma HeapElementAccepted(sch: Schema, f: Field, s: seq<Byte>, data: Slot, k: nat, h: Heap)
    requires WfSchema(sch) && KnownRef(sch, f) && f.dataSize > 0 && k <= |Items(data)|
    requires k <= 0xFFFF_FFFF && f.dataSize * (k + 1) <= 0xFFFF_FFFF_FFFF_FFFF
    ensures var o := D.PointerSingle(sch, f, s, Cell(data, Num(k)), h);
            var a := AllocateField(h, data, f.dataSize, k + 1);
            var item := D.NewItem(sch, f, ItemAt(Items(a.slot), k));
            && (o.ok <==>
                (k < 0xFFFF_FFFF && h.grant(h.next, f.dataSize * (k + 1)) && D.DecValue(sch, f, s, item, a.heap).ok))
            && if k == 0xFFFF_FFFF || !h.grant(h.next, f.dataSize * (k + 1)) then o.cell == Cell(data, Num(k))
               else
                 && o.cell.data.Block? && |o.cell.data.cells| == k + 1 && o.cell.size == Num(k + 1)
                 && o.cell.data.cells[..k] == Items(data)[..k]
                 && o.cell.data.cells[k] == D.DecValue(sch, f, s, item, a.heap).slot
  {
    hide AllocateField, D.DecValue, D.NewItem;
    AllocateExactly(h, data, f.dataSize, k + 1);
    var a := AllocateField(h, data, f.dataSize, k + 1);
    if a.ok {
      var x := D.DecValue(sch, f, s, D.NewItem(sch, f, ItemAt(Items(a.slot), k)), a.heap).slot;
      assert a.slot.cells[k := x][..k] == a.slot.cells[..k] == Items(data)[..k];
      assert D.WithItem(a.slot, k, x) == Block(a.slot.id, a.slot.cells[k := x]);
    }
  }

  /** A required, optional or oneof field behind a pointer: an error when its bytes are not
      granted. What it pointed at stays, and which_ names it. */
  lemma RefusedItem(sch: Schema, f: Field, s: seq<Byte>, c: Cell, h: Heap)
    requires WfSchema(sch) && KnownRef(sch, f) && f.dataSize > 0
    requires !(f.ltype.String? || f.ltype.Bytes?) && !(f.ltype.SubMessage? && !c.data.Nil?)
    requires !h.grant(h.next, f.dataSize)
    ensures var o := D.PointerOne(sch, f, s, c, h);
            !o.ok && o.cell == Cell(c.data, if f.htype.OneOf? then Num(f.tag) else c.size)
  {
    hide AllocateField, D.DecValue, D.NewItem;
    AllocateExactly(h, c.data, f.dataSize, 1);
  }
}
