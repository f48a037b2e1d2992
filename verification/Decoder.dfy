/** pb_decode.c step by step, on streams, an iterator and a struct that is filled in
    place. Every method is proved to do what DecodeSpec says, and to terminate. A
    nested submessage is decoded in an object of its own, copied in and out. */
module Decoder {
  import opened Bits
  import opened Varint
  import opened Descriptor
  import opened Scalars
  import opened FieldIterator
  import opened Defaults
  import A = Allocator
  import opened Release
  import D = DecodeSpec
  import opened InputStream
  import opened Releaser
  import RequiredFields

  /** A message struct. */
  class Struct {
    var m: Store

    constructor (s: Store)
      ensures m == s
    {
      m := s;
    }
  }

  // ----------------------------------------------------------- default values

  lemma CellAt(sch: Schema, sid: nat, i: nat)
    requires WfSchema(sch) && sid < |sch| && i < |sch[sid]|
    ensures SizeAt(sch[sid], i) == DataAt(sch[sid], i) + sch[sid][i].sizeOffset && sch[sid][i].tag != 0
    ensures WfField(|sch|, sid, sch[sid][i]) && KnownRef(sch, sch[sid][i])
  {
    assert WfMessage(sch, sid) && OkField(sch, sid, i) && CounterBesideData(sch[sid], i);
  }

  lemma NonZeroTags(sch: Schema, sid: nat)
    requires WfSchema(sch) && sid < |sch|
    ensures forall i :: 0 <= i < |sch[sid]| ==> sch[sid][i].tag != 0
  {
    forall i | 0 <= i < |sch[sid]| ensures sch[sid][i].tag != 0 {
      CellAt(sch, sid, i);
    }
  }

  /** `pb_field_set_to_default`. */
  method FieldSetToDefault(sch: Schema, sid: nat, iter: FieldIter, dest: Struct)
    requires WfSchema(sch) && sid < |sch| && iter.start == sch[sid] && iter.Valid() && iter.pos < |sch[sid]|
    modifies dest
    ensures dest.m == PutCell(sch[sid], old(dest.m), iter.pos,
            DefaultCell(sch, sid, iter.pos, CellOf(sch[sid], old(dest.m), iter.pos)))
    decreases sid, 0
  {
    CellAt(sch, sid, iter.pos);
    var f := iter.start[iter.pos];
    var data := Look(dest.m, iter.pData);
    var size := if f.sizeOffset != 0 then Look(dest.m, iter.pSize) else Undef;
    if f.atype.Static? {
      var initData := true;
      if f.htype.Optional? && iter.pSize != iter.pData {
        size := Num(0);
      } else if f.htype.Repeated? || f.htype.OneOf? {
        size := Num(0);
        initData := false;
      }
      if initData {
        if f.ltype.SubMessage? {
          var sub := new Struct(Members(data));
          MessageSetToDefaults(sch, f.ptr.id, sub);
          data := Sub(sub.m);
        } else if f.ptr.Default? {
          data := f.ptr.value;
        } else {
          data := ZeroItem(sch, sid, iter.pos);
        }
      }
    } else if f.atype.Pointer? {
      data := Nil;
      if f.htype.Repeated? || f.htype.OneOf? {
        size := Num(0);
      }
    }
    dest.m := dest.m[iter.pData := data];
    if f.sizeOffset != 0 {
      dest.m := dest.m[iter.pSize := size];
    }
  }

  /** `pb_message_set_to_defaults`. */
  method MessageSetToDefaults(sch: Schema, sid: nat, dest: Struct)
    requires WfSchema(sch) && sid < |sch|
    modifies dest
    ensures dest.m == Initialised(sch, sid, old(dest.m))
    decreases sid, 1
  {
    var iter := new FieldIter.Begin(sch[sid]);
    NonZeroTags(sch, sid);
    if FieldAt(sch[sid], 0).tag == 0 {
      return;
    }
    while true
      invariant iter.Valid() && iter.start == sch[sid] && iter.pos < |sch[sid]|
      invariant dest.m == SetDefaults(sch, sid, old(dest.m), iter.pos)
      decreases |sch[sid]| - iter.pos
    {
      FieldSetToDefault(sch, sid, iter, dest);
      ghost var next := iter.pos + 1;
      assert dest.m == SetDefaults(sch, sid, old(dest.m), next);
      var more := iter.Next();
      if !more {
        break;
      }
    }
  }

  // ---------------------------------------------------------------- scalars

  /** What a value decoder did is what the specification says. */
  ghost predicate Item(d: ItemOut, ok: bool, slot: Slot, rest: seq<Byte>) {
    ok == d.ok && slot == d.slot && (ok ==> rest == d.rest)
  }

  /** `pb_decode_fixed32`. */
  method DecodeFixed32(stream: IStream) returns (ok: bool, value: nat)
    requires stream.Valid()
    modifies stream
    ensures stream.Valid() && stream.End() == old(stream.End())
    ensures ok <==> old(stream.left) >= 4
    ensures ok ==> value == DecFixed32(old(stream.Rest())[..4]) && stream.Rest() == old(stream.Rest())[4..]
  {
    value := 0;
    var bytes := new Byte[4];
    ok := stream.Read(bytes, 4);
    if ok {
      assert bytes[..] == old(stream.Rest())[..4];
      value := (bytes[0] as int) + 0x100 * (bytes[1] as int) + 0x1_0000 * (bytes[2] as int) +
               0x100_0000 * (bytes[3] as int);
    }
  }

  /** `pb_decode_fixed64`. */
  method DecodeFixed64(stream: IStream) returns (ok: bool, value: nat)
    requires stream.Valid()
    modifies stream
    ensures stream.Valid() && stream.End() == old(stream.End())
    ensures ok <==> old(stream.left) >= 8
    ensures ok ==> value == DecFixed64(old(stream.Rest())[..8]) && stream.Rest() == old(stream.Rest())[8..]
  {
    value := 0;
    var bytes := new Byte[8];
    ok := stream.Read(bytes, 8);
    if ok {
      ghost var b := old(stream.Rest())[..8];
      assert bytes[..] == b;
      assert forall k :: 0 <= k < 8 ==> bytes[k] == b[k];
      value := (bytes[0] as int) + 0x100 * (bytes[1] as int) + 0x1_0000 * (bytes[2] as int) +
               0x100_0000 * (bytes[3] as int)
        + 0x1_0000_0000 * (bytes[4] as int) + 0x100_0000_0000 * (bytes[5] as int) +
        0x1_0000_0000_0000 * (bytes[6] as int)
        + 0x100_0000_0000_0000 * (bytes[7] as int);
    }
  }

  /** `pb_decode_svarint`. */
  method DecodeSVarint(stream: IStream) returns (ok: bool, value: int)
    requires stream.Valid()
    modifies stream
    ensures stream.Valid() && stream.End() == old(stream.End())
    ensures ok <==> Varint64(old(stream.Rest())).Got?
    ensures ok ==> value == UnZigZag(Varint64(old(stream.Rest())).value)
    ensures ok ==> stream.Rest() == Varint64(old(stream.Rest())).rest
  {
    value := 0;
    var v;
    ok, v := stream.DecodeVarint();
    if ok {
      if v % 2 == 1 {
        value := SignedCast(TWO64 - 1 - v / 2, 8);
      } else {
        value := SignedCast(v / 2, 8);
      }
    }
  }

  /** `pb_dec_bool` to `pb_dec_fixed64`. */
  method DecodeScalar(stream: IStream, f: Field, was: Slot) returns (ok: bool, slot: Slot)
    requires stream.Valid() && Packable(f.ltype)
    modifies stream
    ensures stream.Valid() && stream.End() == old(stream.End())
    ensures Item(DecScalar(f, old(stream.Rest()), was), ok, slot, stream.Rest())
  {
    slot := was;
    if f.ltype.Bool? {
      var v;
      ok, v := stream.DecodeVarint32();
      if ok {
        slot := Num(if v != 0 then 1 else 0);
      }
    } else if f.ltype.Fixed32? {
      var v;
      ok, v := DecodeFixed32(stream);
      if ok {
        slot := Num(v);
      }
    } else if f.ltype.Fixed64? {
      var v;
      ok, v := DecodeFixed64(stream);
      if ok {
        slot := Num(v);
      }
    } else {
      ok, slot := DecodeInteger(stream, f, was);
    }
  }

  /** `pb_dec_varint`, `pb_dec_uvarint` and `pb_dec_svarint`: the value is cast to
      the width of the member, and a cast that changes it is an error. */
  method DecodeInteger(stream: IStream, f: Field, was: Slot) returns (ok: bool, slot: Slot)
    requires stream.Valid() && (f.ltype.VarInt? || f.ltype.UVarInt? || f.ltype.SVarInt?)
    modifies stream
    ensures stream.Valid() && stream.End() == old(stream.End())
    ensures Item(DecScalar(f, old(stream.Rest()), was), ok, slot, stream.Rest())
  {
    slot := was;
    var value, clamped := 0, 0;
    if f.ltype.SVarInt? {
      ok, value := DecodeSVarint(stream);
    } else {
      ok, value := stream.DecodeVarint();
    }
    if !ok {
      return;
    }
    if f.ltype.VarInt? {
      value := SignedCast(value, if f.dataSize == 8 then 8 else 4);
    }
    if !IntWidth(f.dataSize) {
      return false, slot;
    }
    if f.ltype.UVarInt? {
      clamped := UnsignedCast(value, f.dataSize);
    } else {
      clamped := SignedCast(value, f.dataSize);
    }
    slot := Num(clamped);
    ok := clamped == value;
  }

  // ------------------------------------------------------- strings and bytes

  /** What a value decoder did is what the specification says. */
  ghost predicate Value(v: D.ValueOut, ok: bool, slot: Slot, heap: A.Heap, rest: seq<Byte>) {
    ok == v.ok && slot == v.slot && heap == v.heap && (ok ==> rest == v.rest)
  }

  /** `pb_read` into memory the struct owns. */
  method ReadBytes(stream: IStream, count: nat) returns (ok: bool, data: seq<Byte>)
    requires stream.Valid()
    modifies stream
    ensures stream.Valid() && stream.End() == old(stream.End())
    ensures ok <==> count <= old(stream.left)
    ensures ok ==> data == old(stream.Rest())[..count] && stream.Rest() == old(stream.Rest())[count..]
  {
    var target := new Byte[count];
    ok := stream.Read(target, count);
    data := target[..];
  }

  /** Room for the bytes of a string or bytes array, then the bytes. */
  method FillBuffer(stream: IStream, memory: Memory, f: Field, dest: Slot, allocSize: nat, size: nat)
    returns (ok: bool, slot: Slot)
    requires stream.Valid()
    modifies stream, memory
    ensures stream.Valid() && stream.End() == old(stream.End())
    ensures Value(D.FillBuffer(f, old(stream.Rest()), size, allocSize, dest, old(memory.heap)),
            ok, slot, memory.heap, stream.Rest())
  {
    slot := dest;
    if f.atype.Pointer? {
      if stream.left < size {
        return false, slot;
      }
      ok, slot := memory.AllocateField(dest, allocSize, 1);
      if !ok {
        return;
      }
    } else {
      if allocSize > f.dataSize {
        return false, slot;
      }
      slot := Undef;
    }
    var data;
    ok, data := ReadBytes(stream, size);
    if ok {
      slot := if f.atype.Pointer? then Block(slot.id, [Buf(data)]) else Buf(data);
    }
  }

  /** `pb_dec_bytes` and `pb_dec_string`. */
  method DecodeBuffer(stream: IStream, memory: Memory, f: Field, dest: Slot) returns (ok: bool, slot: Slot)
    requires stream.Valid() && (f.ltype.Bytes? || f.ltype.String?)
    modifies stream, memory
    ensures stream.Valid() && stream.End() == old(stream.End())
    ensures Value(D.DecBuffer(f, old(stream.Rest()), dest, old(memory.heap)), ok, slot, memory.heap, stream.Rest())
  {
    hide Varint32, D.FillBuffer;
    slot := dest;
    var size;
    ok, size := stream.DecodeVarint32();
    if !ok {
      return;
    }
    var allocSize := if f.ltype.Bytes? then BYTES_HEADER + size else U32(size + 1);
    if (f.ltype.Bytes? && size > PB_SIZE_MAX) || allocSize < size {
      return false, slot;
    }
    ok, slot := FillBuffer(stream, memory, f, dest, allocSize, size);
  }

  /** `pb_dec_fixed_length_bytes`. */
  method DecodeFixedBytes(stream: IStream, memory: Memory, f: Field, dest: Slot) returns (ok: bool, slot: Slot)
    requires stream.Valid()
    modifies stream
    ensures stream.Valid() && stream.End() == old(stream.End())
    ensures Value(D.DecFixedBytes(f, old(stream.Rest()), dest, memory.heap), ok, slot, memory.heap, stream.Rest())
  {
    slot := dest;
    var size;
    ok, size := stream.DecodeVarint32();
    if !ok {
      return;
    }
    if size > PB_SIZE_MAX {
      return false, slot;
    }
    if size == 0 {
      slot := Buf(Zeros(f.dataSize));
      return true, slot;
    }
    if size != f.dataSize {
      return false, slot;
    }
    var data;
    ok, data := ReadBytes(stream, f.dataSize);
    if ok {
      slot := Buf(data);
    }
  }

  // ------------------------------------------------------------------- values

  /** The entry of PB_DECODERS for the field. */
  method DecodeValue(stream: IStream, memory: Memory, sch: Schema, f: Field, dest: Slot) returns (ok: bool, slot: Slot)
    requires WfSchema(sch) && KnownRef(sch, f) && stream.Valid()
    modifies stream, memory
    ensures stream.Valid() && stream.End() <= old(stream.End()) && (ok ==> stream.End() == old(stream.End()))
    ensures Value(D.DecValue(sch, f, old(stream.Rest()), dest, old(memory.heap)), ok, slot, memory.heap, stream.Rest())
    decreases stream.left, 2
  {
    if Packable(f.ltype) {
      ok, slot := DecodeScalar(stream, f, dest);
    } else if f.ltype.Bytes? || f.ltype.String? {
      ok, slot := DecodeBuffer(stream, memory, f, dest);
    } else if f.ltype.FixedLengthBytes? {
      ok, slot := DecodeFixedBytes(stream, memory, f, dest);
    } else if f.ltype.SubMessage? {
      ok, slot := DecodeSubmessage(stream, memory, sch, f, dest);
    } else {
      ok, slot := false, dest;
    }
  }

  /** New array entries are initialised first. */
  ghost function ContentsOf(sch: Schema, f: Field, body: seq<Byte>, m: Store, h: A.Heap): D.MessageOut
    requires WfSchema(sch) && KnownRef(sch, f) && f.ptr.Fields?
  {
    if f.htype.Repeated? then D.Decode(sch, f.ptr.id, body, m, h) else D.DecodeNoInit(sch, f.ptr.id, body, m, h)
  }

  ghost predicate SubmessageDone(sch: Schema, f: Field, chunk: D.Chunk, dest: Slot, h: A.Heap,
          ok: bool, slot: Slot, heap: A.Heap)
    requires WfSchema(sch) && KnownRef(sch, f)
  {
    if chunk.NoChunk? || !f.ptr.Fields? then !ok && slot == dest && heap == h
    else
      var m := ContentsOf(sch, f, chunk.body, Members(dest), h);
      ok == m.ok && slot == Sub(m.store) && heap == m.heap
  }

  lemma SubmessageOf(sch: Schema, f: Field, s: seq<Byte>, dest: Slot, h: A.Heap, ok: bool, slot: Slot, heap: A.Heap,
                     rest: seq<Byte>)
    requires WfSchema(sch) && KnownRef(sch, f) && SubmessageDone(sch, f, D.Delimited(s), dest, h, ok, slot, heap)
    requires ok ==> rest == D.Delimited(s).rest
    ensures Value(D.DecSub(sch, f, s, dest, h), ok, slot, heap, rest)
  {
  }

  /** `pb_dec_submessage`: the contents are decoded from a substream, and the parent
      continues after the announced bytes, however far the decoder inside came. */
  method DecodeSubmessage(stream: IStream, memory: Memory, sch: Schema, f: Field, dest: Slot) returns (ok: bool,
                          slot: Slot)
    requires WfSchema(sch) && KnownRef(sch, f) && stream.Valid()
    modifies stream, memory
    ensures stream.Valid() && stream.End() <= old(stream.End()) && (ok ==> stream.End() == old(stream.End()))
    ensures Value(D.DecSub(sch, f, old(stream.Rest()), dest, old(memory.heap)), ok, slot, memory.heap, stream.Rest())
    decreases stream.left, 1
  {
    hide ContentsOf, D.DecSub, D.Delimited, WfSchema;
    ghost var s, h := stream.Rest(), memory.heap;
    slot := dest;
    var substream;
    ok, substream := stream.MakeSubstream();
    if ok && f.ptr.Fields? {
      var inner := new Struct(Members(dest));
      ghost var end, rest := substream.End(), stream.After(substream.End());
      ok := DecodeContents(substream, memory, sch, f, inner);
      slot := Sub(inner.m);
      assert stream.After(end) == rest && end + stream.left == old(stream.End());
      var closed := stream.CloseSubstream(substream);
      ok := closed && ok;
    } else {
      ok := false;
    }
    SubmessageOf(sch, f, s, dest, h, ok, slot, memory.heap, stream.Rest());
  }

  method DecodeContents(substream: IStream, memory: Memory, sch: Schema, f: Field, inner: Struct) returns (ok: bool)
    requires WfSchema(sch) && KnownRef(sch, f) && f.ptr.Fields? && substream.Valid()
    modifies substream, memory, inner
    ensures substream.Valid() && substream.End() <= old(substream.End())
            && (ok ==> substream.End() == old(substream.End()))
    ensures var m := ContentsOf(sch, f, old(substream.Rest()), old(inner.m), old(memory.heap));
            ok == m.ok && inner.m == m.store && memory.heap == m.heap
    decreases substream.left, 11
  {
    if f.htype.Repeated? {
      ok := Decode(substream, memory, sch, f.ptr.id, inner);
    } else {
      ok := DecodeNoInit(substream, memory, sch, f.ptr.id, inner);
    }
  }

  // ------------------------------------------------------------ static fields

  /** What the decoder of a field did is what the specification says. */
  ghost predicate Step(o: D.StepOut, ok: bool, c: Cell, heap: A.Heap, rest: seq<Byte>) {
    ok == o.ok && c == o.cell && heap == o.heap && (ok ==> rest == o.rest)
  }

  /** The loop over a packed block into a static array. */
  method PackedLoop(substream: IStream, f: Field, items: seq<Slot>, size: int)
    returns (status: bool, items1: seq<Slot>, size1: int)
    requires substream.Valid() && Packable(f.ltype)
    modifies substream
    ensures substream.Valid() && substream.End() == old(substream.End())
    ensures var p := D.PackedItems(f, old(substream.Rest()), items, size);
            items1 == p.items && size1 == p.count && (status && substream.left == 0 <==> p.ok && p.rest == [])
  {
    hide DecScalar;
    status, items1, size1 := true, items, size;
    while substream.left > 0 && size1 < f.arraySize
      invariant substream.Valid() && substream.End() == old(substream.End())
      invariant D.PackedItems(f, old(substream.Rest()), items, size) ==
                D.PackedItems(f, substream.Rest(), items1, size1)
      decreases substream.left
    {
      var item;
      status, item := DecodeScalar(substream, f, ItemAt(items1, size1));
      items1 := SetItem(items1, size1, item);
      if !status {
        return;
      }
      size1 := size1 + 1;
    }
  }

  /** A packed record of a static array. */
  method DecodePackedStatic(stream: IStream, f: Field, c: Cell, ghost h: A.Heap) returns (ok: bool, c1: Cell)
    requires stream.Valid() && Packable(f.ltype)
    modifies stream
    ensures stream.Valid() && stream.End() <= old(stream.End()) && (ok ==> stream.End() == old(stream.End()))
    ensures Step(D.StaticPacked(f, old(stream.Rest()), c, h), ok, c1, h, stream.Rest())
  {
    hide D.PackedItems, D.Delimited, DecScalar;
    c1 := c;
    var substream;
    ok, substream := stream.MakeSubstream();
    if !ok {
      return;
    }
    ghost var end, rest := substream.End(), stream.After(substream.End());
    var status, items, size := PackedLoop(substream, f, Items(c.data), Number(c.size));
    assert stream.After(end) == rest && end + stream.left == old(stream.End());
    c1 := Cell(Arr(items), Num(size));
    if substream.left != 0 {
      return false, c1;
    }
    ok := stream.CloseSubstream(substream);
    ok := ok && status;
  }

  /** `decode_static_field`. */
  method DecodeStaticField(stream: IStream, memory: Memory, sch: Schema, f: Field, wire: nat, c: Cell)
    returns (ok: bool, c1: Cell)
    requires WfSchema(sch) && KnownRef(sch, f) && stream.Valid()
    modifies stream, memory
    ensures stream.Valid() && stream.End() <= old(stream.End()) && (ok ==> stream.End() == old(stream.End()))
    ensures Step(D.StaticStep(sch, f, wire, old(stream.Rest()), c, old(memory.heap)),
            ok, c1, memory.heap, stream.Rest())
    decreases stream.left, 4
  {
    hide D.DecValue;
    c1 := c;
    var slot;
    match f.htype {
      case Required =>
        ok, slot := DecodeValue(stream, memory, sch, f, c.data);
        c1 := c1.(data := slot);
      case Optional =>
        if f.sizeOffset != 0 {
          c1 := c1.(size := Num(1));
        }
        ok, slot := DecodeValue(stream, memory, sch, f, c.data);
        c1 := c1.(data := slot);
      case Repeated =>
        if wire == WT_STRING && Packable(f.ltype) {
          ok, c1 := DecodePackedStatic(stream, f, c, memory.heap);
        } else {
          ok, c1 := DecodeSingleStatic(stream, memory, sch, f, c);
        }
      case OneOf =>
        if f.ltype.SubMessage? && f.ptr.Fields? && Number(c.size) != f.tag {
          var zeroed := new Struct(ZeroStruct(sch, f.ptr.id, |sch[f.ptr.id]|));
          MessageSetToDefaults(sch, f.ptr.id, zeroed);
          c1 := c1.(data := Sub(zeroed.m));
        }
        c1 := c1.(size := Num(f.tag));
        ok, slot := DecodeValue(stream, memory, sch, f, c1.data);
        c1 := c1.(data := slot);
    }
  }

  /** An unpacked element of a static array. */
  method DecodeSingleStatic(stream: IStream, memory: Memory, sch: Schema, f: Field, c: Cell) returns (ok: bool,
                            c1: Cell)
    requires WfSchema(sch) && KnownRef(sch, f) && stream.Valid()
    modifies stream, memory
    ensures stream.Valid() && stream.End() <= old(stream.End()) && (ok ==> stream.End() == old(stream.End()))
    ensures Step(D.StaticSingle(sch, f, old(stream.Rest()), c, old(memory.heap)), ok, c1, memory.heap, stream.Rest())
    decreases stream.left, 3
  {
    hide D.DecValue;
    var size, items := Number(c.size), Items(c.data);
    c1 := c.(size := Num(size + 1));
    if size >= f.arraySize {
      return false, c1;
    }
    var item;
    ok, item := DecodeValue(stream, memory, sch, f, ItemAt(items, size));
    c1 := c1.(data := Arr(SetItem(items, size, item)));
  }

  // ----------------------------------------------------------- pointer fields

  /** `initialize_pointer_field`. */
  method InitializePointerField(sch: Schema, f: Field, was: Slot) returns (item: Slot)
    requires WfSchema(sch) && KnownRef(sch, f)
    ensures item == D.NewItem(sch, f, was)
  {
    item := was;
    if f.ltype.String? || f.ltype.Bytes? {
      item := Nil;
    } else if f.ltype.SubMessage? && f.ptr.Fields? {
      var zeroed := new Struct(ZeroStruct(sch, f.ptr.id, |sch[f.ptr.id]|));
      MessageSetToDefaults(sch, f.ptr.id, zeroed);
      item := Sub(zeroed.m);
    }
  }

  /** More storage when the next element has no room: a guess at what the rest of
      the block will need. */
  method MakeRoom(memory: Memory, f: Field, left: nat, data: Slot, size: nat, allocatedSize: nat)
    returns (ok: bool, data1: Slot, allocated1: nat)
    requires left > 0 && f.dataSize > 0
    modifies memory
    ensures A.AllocOut(ok, data1, memory.heap) == D.MakeRoom(f, left, data, size, allocatedSize, old(memory.heap))
    ensures allocated1 == D.RoomFor(left, f.dataSize, size, allocatedSize)
    ensures size <= allocatedSize && size < PB_SIZE_MAX ==> size + 1 <= allocated1
    ensures size <= allocatedSize <= PB_SIZE_MAX && size < PB_SIZE_MAX ==> allocated1 <= PB_SIZE_MAX
  {
    ok, data1, allocated1 := true, data, allocatedSize;
    if size + 1 > allocatedSize {
      var remain := (left - 1) / f.dataSize + 1;
      if remain < PB_SIZE_MAX - allocatedSize {
        allocated1 := allocatedSize + remain;
      } else {
        allocated1 := allocatedSize + 1;
      }
      ok, data1 := memory.AllocateField(data, f.dataSize, allocated1);
    }
  }

  /** One element of a packed block: room for it, then its value. It is stored
      within the room allocated, which a counter can express. */
  method GrowTurn(substream: IStream, memory: Memory, f: Field, data: Slot, size: nat, allocatedSize: nat)
    returns (status: bool, data1: Slot, allocated1: nat)
    requires substream.Valid() && Packable(f.ltype) && f.dataSize > 0 && substream.left > 0 && size != PB_SIZE_MAX
    modifies substream, memory
    ensures substream.Valid() && substream.End() == old(substream.End())
    ensures !status ==> Grew(D.GrowItems(f, old(substream.Rest()), data, size, allocatedSize, old(memory.heap)),
                             false, data1, size, memory.heap)
    ensures status ==> substream.left < old(substream.left) &&
                       D.GrowItems(f, old(substream.Rest()), data, size, allocatedSize, old(memory.heap)) ==
                       D.GrowItems(f, substream.Rest(), data1, size + 1, allocated1, memory.heap)
    ensures size <= allocatedSize <= PB_SIZE_MAX ==> size + 1 <= allocated1 <= PB_SIZE_MAX
  {
    ghost var s, h := substream.Rest(), memory.heap;
    var room;
    status, room, allocated1 := MakeRoom(memory, f, substream.left, data, size, allocatedSize);
    data1 := room;
    if status {
      assert size <= allocatedSize <= PB_SIZE_MAX ==> size + 1 <= allocated1 <= PB_SIZE_MAX;
      var item;
      status, item := DecodeScalar(substream, f, ItemAt(Items(room), size));
      data1 := D.WithItem(room, size, item);
    }
    GrowUnfold(f, s, data, size, allocatedSize, h);
  }

  lemma GrowEnds(f: Field, data: Slot, count: nat, room: nat, h: A.Heap)
    requires f.dataSize > 0
    ensures D.GrowItems(f, [], data, count, room, h) == D.GrowOut(true, [], data, count, h)
    ensures forall s :: s != [] && count == PB_SIZE_MAX ==>
            D.GrowItems(f, s, data, count, room, h) == D.GrowOut(false, s, data, count, h)
  {
  }

  ghost predicate Grew(g: D.GrowOut, ok: bool, data: Slot, count: nat, heap: A.Heap) {
    ok == g.ok && data == g.data && count == g.count && heap == g.heap
  }

  lemma GrowUnfold(f: Field, s: seq<Byte>, data: Slot, count: nat, room: nat, h: A.Heap)
    requires f.dataSize > 0 && s != [] && count != PB_SIZE_MAX
    ensures var a := D.MakeRoom(f, |s|, data, count, room, h);
            var d := DecScalar(f, s, ItemAt(Items(a.slot), count));
            var data1 := D.WithItem(a.slot, count, d.slot);
            var g := D.GrowItems(f, s, data, count, room, h);
            if !a.ok then g == D.GrowOut(false, s, a.slot, count, a.heap)
            else if !d.ok then g == D.GrowOut(false, s, data1, count, a.heap)
            else g == D.GrowItems(f, d.rest, data1, count + 1, D.RoomFor(|s|, f.dataSize, count, room), a.heap)
  {
  }

  /** The loop over a packed block into a heap array. */
  method GrowLoop(substream: IStream, memory: Memory, f: Field, data: Slot, size: nat)
    returns (status: bool, data1: Slot, size1: nat)
    requires substream.Valid() && Packable(f.ltype) && f.dataSize > 0
    modifies substream, memory
    ensures substream.Valid() && substream.End() == old(substream.End())
    ensures Grew(D.GrowItems(f, old(substream.Rest()), data, size, size, old(memory.heap)),
            status, data1, size1, memory.heap)
  {
    hide D.GrowItems;
    status, data1, size1 := true, data, size;
    ghost var g := D.GrowItems(f, substream.Rest(), data, size, size, memory.heap);
    var allocatedSize: nat := size;
    while substream.left > 0
      invariant substream.Valid() && substream.End() == old(substream.End())
      invariant g == D.GrowItems(f, substream.Rest(), data1, size1, allocatedSize, memory.heap)
      invariant size <= PB_SIZE_MAX ==> size1 <= allocatedSize <= PB_SIZE_MAX
      decreases substream.left
    {
      GrowEnds(f, data1, size1, allocatedSize, memory.heap);
      if size1 == PB_SIZE_MAX {
        return false, data1, size1;
      }
      status, data1, allocatedSize := GrowTurn(substream, memory, f, data1, size1, allocatedSize);
      if !status {
        return;
      }
      size1 := size1 + 1;
    }
    GrowEnds(f, data1, size1, allocatedSize, memory.heap);
    status := true;
  }

  /** A packed record of a heap array. */
  method DecodePackedPointer(stream: IStream, memory: Memory, f: Field, c: Cell) returns (ok: bool, c1: Cell)
    requires stream.Valid() && Packable(f.ltype) && f.dataSize > 0
    modifies stream, memory
    ensures stream.Valid() && stream.End() <= old(stream.End()) && (ok ==> stream.End() == old(stream.End()))
    ensures Step(D.PointerPacked(f, old(stream.Rest()), c, old(memory.heap)), ok, c1, memory.heap, stream.Rest())
  {
    c1 := c;
    var substream;
    ok, substream := stream.MakeSubstream();
    if !ok {
      return;
    }
    ghost var end, rest := substream.End(), stream.After(substream.End());
    var count: nat := if Number(c.size) < 0 then 0 else Number(c.size);
    var status, data, size := GrowLoop(substream, memory, f, c.data, count);
    assert stream.After(end) == rest && end + stream.left == old(stream.End());
    c1 := Cell(data, Num(size));
    ok := stream.CloseSubstream(substream);
    ok := ok && status;
  }

  /** An unpacked element of a heap array. */
  method DecodeSinglePointer(stream: IStream, memory: Memory, sch: Schema, f: Field, c: Cell) returns (ok: bool,
                             c1: Cell)
    requires WfSchema(sch) && KnownRef(sch, f) && stream.Valid()
    modifies stream, memory
    ensures stream.Valid() && stream.End() <= old(stream.End()) && (ok ==> stream.End() == old(stream.End()))
    ensures Step(D.PointerSingle(sch, f, old(stream.Rest()), c, old(memory.heap)), ok, c1, memory.heap, stream.Rest())
    decreases stream.left, 3
  {
    hide D.DecValue, A.AllocateField;
    c1 := c;
    var size := Number(c.size);
    if size == PB_SIZE_MAX || size < 0 {
      return false, c1;
    }
    var data;
    ok, data := memory.AllocateField(c.data, f.dataSize, size + 1);
    if !ok {
      return;
    }
    var item := InitializePointerField(sch, f, ItemAt(Items(data), size));
    ok, item := DecodeValue(stream, memory, sch, f, item);
    c1 := Cell(D.WithItem(data, size, item), Num(size + 1));
  }

  /** A required, optional or oneof pointer field. */
  method DecodeOnePointer(stream: IStream, memory: Memory, sch: Schema, f: Field, c: Cell) returns (ok: bool, c1: Cell)
    requires WfSchema(sch) && KnownRef(sch, f) && stream.Valid() && !f.htype.Repeated?
    modifies stream, memory
    ensures stream.Valid() && stream.End() <= old(stream.End()) && (ok ==> stream.End() == old(stream.End()))
    ensures Step(D.PointerOne(sch, f, old(stream.Rest()), c, old(memory.heap)), ok, c1, memory.heap, stream.Rest())
    decreases stream.left, 3
  {
    hide D.DecValue, A.AllocateField;
    c1 := c;
    if f.ltype.SubMessage? && !c.data.Nil? {
      c1 := ReleaseSingleField(memory, sch, f, c.data, c.size);
    }
    if f.htype.OneOf? {
      c1 := c1.(size := Num(f.tag));
    }
    if f.ltype.String? || f.ltype.Bytes? {
      var slot;
      ok, slot := DecodeValue(stream, memory, sch, f, c1.data);
      c1 := c1.(data := slot);
      return;
    }
    var data;
    ok, data := memory.AllocateField(c1.data, f.dataSize, 1);
    if !ok {
      return;
    }
    var item := InitializePointerField(sch, f, ItemAt(Items(data), 0));
    ok, item := DecodeValue(stream, memory, sch, f, item);
    c1 := c1.(data := D.WithItem(data, 0, item));
  }

  /** `decode_pointer_field`. */
  method DecodePointerField(stream: IStream, memory: Memory, sch: Schema, f: Field, wire: nat, c: Cell)
    returns (ok: bool, c1: Cell)
    requires WfSchema(sch) && KnownRef(sch, f) && stream.Valid() && f.dataSize > 0
    modifies stream, memory
    ensures stream.Valid() && stream.End() <= old(stream.End()) && (ok ==> stream.End() == old(stream.End()))
    ensures Step(D.PointerStep(sch, f, wire, old(stream.Rest()), c, old(memory.heap)),
            ok, c1, memory.heap, stream.Rest())
    decreases stream.left, 4
  {
    if !f.htype.Repeated? {
      ok, c1 := DecodeOnePointer(stream, memory, sch, f, c);
    } else if wire == WT_STRING && Packable(f.ltype) {
      ok, c1 := DecodePackedPointer(stream, memory, f, c);
    } else {
      ok, c1 := DecodeSinglePointer(stream, memory, sch, f, c);
    }
  }

  // --------------------------------------------------------------- one field

  /** A search that starts anywhere finds the one entry with the tag. */
  lemma FoundIsFirst(sch: Schema, sid: nat, tag: nat, pos: nat)
    requires WfSchema(sch) && sid < |sch| && pos < |sch[sid]| && Matches(sch[sid], pos, tag)
    ensures FirstMatch(sch[sid], tag, 0) == pos
  {
    assert WfMessage(sch, sid);
    MatchIsUnique(sch[sid], tag, pos);
  }

  /** `pb_release_union_field`: the iterator visits the old member and comes back. */
  method ReleaseUnionField(memory: Memory, sch: Schema, sid: nat, iter: FieldIter, c: Cell) returns (ok: bool, c1: Cell)
    requires WfSchema(sch) && sid < |sch| && iter.start == sch[sid] && iter.Valid() && iter.pos < |sch[sid]|
    modifies memory, iter
    ensures D.UnionOut(ok, c1, memory.heap) == D.ReleaseUnion(sch, sid, old(iter.pos), c, old(memory.heap))
    ensures iter.Valid() && (ok ==> iter.pos == old(iter.pos))
  {
    ghost var fs := sch[sid];
    c1 := c;
    NonZeroTags(sch, sid);
    CellAt(sch, sid, iter.pos);
    var oldTag, newTag, home := Number(c.size), iter.start[iter.pos].tag, iter.pos;
    if oldTag == 0 || oldTag == newTag {
      return true, c1;
    }
    if oldTag < 0 {
      return false, c1;
    }
    var found := iter.Find(oldTag);
    if !found {
      NoMatch(fs, oldTag);
      return false, c1;
    }
    FoundIsFirst(sch, sid, oldTag, iter.pos);
    if UnionHead(iter.start, iter.pos) != UnionHead(iter.start, home) {
      return false, c1;
    }
    CellAt(sch, sid, iter.pos);
    c1 := ReleaseSingleField(memory, sch, iter.start[iter.pos], c.data, c.size);
    found := iter.Find(newTag);
    assert Matches(fs, home, newTag);
    FoundIsFirst(sch, sid, newTag, home);
    FoundIsFirst(sch, sid, newTag, iter.pos);
    ok := found;
    if iter.start[iter.pos].atype.Pointer? {
      c1 := c1.(data := Nil);
    }
  }

  /** `decode_field`. */
  method DecodeField(stream: IStream, memory: Memory, sch: Schema, sid: nat, iter: FieldIter, wire: nat, c: Cell)
    returns (ok: bool, c1: Cell)
    requires WfSchema(sch) && sid < |sch| && iter.start == sch[sid] && iter.Valid() && iter.pos < |sch[sid]|
    requires stream.Valid()
    modifies stream, memory, iter
    ensures stream.Valid() && stream.End() <= old(stream.End()) && (ok ==> stream.End() == old(stream.End()))
    ensures Step(D.FieldStep(sch, sid, old(iter.pos), wire, old(stream.Rest()), c, old(memory.heap)),
                 ok, c1, memory.heap, stream.Rest())
    ensures iter.Valid() && (ok ==> iter.pos == old(iter.pos))
    decreases stream.left, 5
  {
    c1 := c;
    CellAt(sch, sid, iter.pos);
    var f := iter.start[iter.pos];
    if f.htype.OneOf? {
      ok, c1 := ReleaseUnionField(memory, sch, sid, iter, c);
      if !ok {
        return;
      }
    }
    if f.atype.Static? {
      ok, c1 := DecodeStaticField(stream, memory, sch, f, wire, c1);
    } else {
      ok, c1 := DecodePointerField(stream, memory, sch, f, wire, c1);
    }
  }

  // ---------------------------------------------------------------- messages

  /** The struct and the heap after a message decoder, and the bytes it left. */
  ghost predicate Message(o: D.MessageOut, ok: bool, m: Store, heap: A.Heap, rest: seq<Byte>) {
    ok == o.ok && m == o.store && heap == o.heap && (ok ==> rest == o.rest)
  }

  /** The position of the last fixed-count field, or -1. */
  predicate Entry(fs: seq<Field>, fixed: int) {
    -1 <= fixed < |fs|
  }

  /** The locals of `pb_decode_noinit` and the state of the specification. */
  ghost predicate Tracks(run: D.Run, m: Store, heap: A.Heap, fixedField: int, fixedSize: int, words: seq<nat>) {
    && run.store == m && run.heap == heap && run.fixed == fixedField && run.fixedSize == fixedSize
    && RequiredFields.Holds(words, run.seen)
  }

  /** The bookkeeping before a fixed-count field is decoded: `redirected` says that
      the iterator's pSize already points at the local counter. */
  method EnterFixed(iter: FieldIter, fixedField: int, fixedSize: int, redirected: bool, ghost run: D.Run)
    returns (ok: bool, field1: int, size1: int, redirected1: bool)
    requires iter.Valid() && iter.pos < |iter.start| && Entry(iter.start, fixedField)
    requires SizeAt(iter.start, iter.pos) == DataAt(iter.start, iter.pos) + iter.start[iter.pos].sizeOffset
    requires run.fixed == fixedField && run.fixedSize == fixedSize
    requires redirected ==> D.FixedCount(iter.start[iter.pos]) && fixedField == iter.pos
    ensures ok <==> !(D.FixedCount(iter.start[iter.pos]) && run.fixed != iter.pos && !D.FixedDone(iter.start, run))
    ensures !ok ==> field1 == fixedField && size1 == fixedSize
    ensures ok ==> redirected1 == D.FixedCount(iter.start[iter.pos])
    ensures ok ==> var entered := if D.FixedCount(iter.start[iter.pos]) then D.EnterFixed(run, iter.pos) else run;
                   entered.fixed == field1 && entered.fixedSize == size1
  {
    ok, field1, size1, redirected1 := true, fixedField, fixedSize, redirected;
    var f := iter.start[iter.pos];
    if f.htype.Repeated? && !redirected && iter.pSize == iter.pData {
      if fixedField != iter.pos {
        if fixedField != -1 && fixedSize != iter.start[fixedField].arraySize {
          return false, fixedField, fixedSize, redirected;
        }
        field1 := iter.pos;
        size1 := 0;
      }
      redirected1 := true;
    }
  }

  /** Marks a required field as seen, if the bitmap has a bit for it. */
  method MarkRequired(iter: FieldIter, fieldsSeen: array<nat>, ghost seen: set<nat>)
    requires iter.Valid() && iter.pos < |iter.start| && RequiredFields.Holds(fieldsSeen[..], seen)
    modifies fieldsSeen
    ensures RequiredFields.Holds(fieldsSeen[..], seen + D.Seen(iter.start, iter.pos))
  {
    if iter.start[iter.pos].htype.Required? && iter.requiredIndex < MAX_REQUIRED_FIELDS {
      RequiredFields.MarkSeen(fieldsSeen, iter.requiredIndex, seen);
    } else {
      assert seen + D.Seen(iter.start, iter.pos) == seen;
    }
  }

  lemma KnownIsStep(sch: Schema, sid: nat, i: nat, wire: nat, s: seq<Byte>, run: D.Run)
    requires WfSchema(sch) && sid < |sch| && i < |sch[sid]|
    ensures var fs := sch[sid];
            var entered := if D.FixedCount(fs[i]) then D.EnterFixed(run, i) else run;
            var run1 := entered.(seen := run.seen + D.Seen(fs, i));
            var o := D.FieldStep(sch, sid, i, wire, s, D.RunCell(fs, run1, i), run1.heap);
            D.KnownRecord(sch, sid, i, wire, s, run) ==
            if D.FixedCount(fs[i]) && run.fixed != i && !D.FixedDone(fs, run) then D.RunOut(false, false, s, run)
            else D.RunOut(o.ok, false, o.rest, D.WriteBack(fs, run1, i, o.cell, o.heap))
  {
    hide D.FieldStep, D.RunCell, D.WriteBack, D.Seen, D.FixedDone;
  }

  /** A record of the field the iterator has found, after its key. */
  method DecodeKnown(stream: IStream, memory: Memory, sch: Schema, sid: nat, dest: Struct, iter: FieldIter, wire: nat,
                     fieldsSeen: array<nat>, fixedField: int, fixedSize: int, redirected: bool, ghost run: D.Run)
    returns (ok: bool, field1: int, size1: int, redirected1: bool)
    requires WfSchema(sch) && sid < |sch| && stream.Valid()
    requires iter.start == sch[sid] && iter.Valid() && iter.pos < |sch[sid]| && Entry(sch[sid], fixedField)
    requires Tracks(run, dest.m, memory.heap, fixedField, fixedSize, fieldsSeen[..])
    requires redirected ==> D.FixedCount(sch[sid][iter.pos]) && fixedField == iter.pos
    modifies stream, memory, dest, iter, fieldsSeen
    ensures stream.Valid() && stream.End() <= old(stream.End()) && (ok ==> stream.End() == old(stream.End()))
    ensures iter.Valid()
    ensures var o := D.KnownRecord(sch, sid, old(iter.pos), wire, old(stream.Rest()), run);
            ok == o.ok && Tracks(o.run, dest.m, memory.heap, field1, size1, fieldsSeen[..])
                    && (ok ==> stream.Rest() == o.rest)
    ensures ok ==>
              && iter.pos == old(iter.pos) && redirected1 == D.FixedCount(sch[sid][iter.pos])
              && Entry(sch[sid], field1)
    ensures ok && redirected1 ==> field1 == iter.pos
    decreases stream.left, 6
  {
    hide D.KnownRecord, D.FieldStep, RequiredFields.Holds, D.Seen, WfSchema, DataAt, SizeAt, RequiredBefore;
    CellAt(sch, sid, iter.pos);
    KnownIsStep(sch, sid, iter.pos, wire, stream.Rest(), run);
    ghost var i := iter.pos;
    var f, pData, pSize := iter.start[iter.pos], iter.pData, iter.pSize;
    ok, field1, size1, redirected1 := EnterFixed(iter, fixedField, fixedSize, redirected, run);
    if !ok {
      return;
    }
    MarkRequired(iter, fieldsSeen, run.seen);
    var size := if redirected1 then Num(size1) else if f.sizeOffset != 0 then Look(dest.m, pSize) else Undef;
    var c;
    ok, c := DecodeField(stream, memory, sch, sid, iter, wire, Cell(Look(dest.m, pData), size));
    dest.m := dest.m[pData := c.data];
    if redirected1 {
      size1 := Number(c.size);
    } else if f.sizeOffset != 0 {
      dest.m := dest.m[pSize := c.size];
    }
  }

  lemma TerminatorStep(sch: Schema, wire: nat, s: seq<Byte>, c: Cell, h: A.Heap)
    requires WfSchema(sch)
    ensures var d := DecScalar(LAST_FIELD, s, c.data);
            D.StaticStep(sch, LAST_FIELD, wire, s, c, h) == D.StepOut(d.ok, d.rest, Cell(d.slot, c.size), h)
  {
  }

  /** In an empty message the search for tag 0 finds the terminator, which reads as a
      required bool. */
  method DecodeTerminator(stream: IStream, memory: Memory, sch: Schema, dest: Struct, wire: nat, fieldsSeen: array<nat>,
                          fixedField: int, fixedSize: int, ghost run: D.Run) returns (ok: bool)
    requires WfSchema(sch) && stream.Valid() && Tracks(run, dest.m, memory.heap, fixedField, fixedSize, fieldsSeen[..])
    modifies stream, memory, dest, fieldsSeen
    ensures stream.Valid() && stream.End() <= old(stream.End()) && (ok ==> stream.End() == old(stream.End()))
    ensures var o := D.TerminatorRecord(old(stream.Rest()), run);
            ok == o.ok && Tracks(o.run, dest.m, memory.heap, fixedField, fixedSize, fieldsSeen[..])
                    && (ok ==> stream.Rest() == o.rest)
    decreases stream.left, 6
  {
    hide D.StaticStep, DecScalar;
    var c := Cell(Look(dest.m, LAST_FIELD.dataOffset), Undef);
    TerminatorStep(sch, wire, stream.Rest(), c, memory.heap);
    RequiredFields.MarkSeen(fieldsSeen, 0, run.seen);
    ok, c := DecodeStaticField(stream, memory, sch, LAST_FIELD, wire, c);
    dest.m := dest.m[LAST_FIELD.dataOffset := c.data];
  }

  datatype Outcome = Continue | Stop | Broken

  /** The descriptors have no extension fields, so no tag is in an extension range. */
  lemma NoExtensions(sch: Schema, sid: nat)
    requires WfSchema(sch) && sid < |sch|
    ensures forall i :: 0 <= i < |sch[sid]| ==> !FieldAt(sch[sid], i).ltype.Extension?
    ensures !FieldAt(sch[sid], |sch[sid]|).ltype.Extension?
  {
    forall i | 0 <= i < |sch[sid]| ensures !FieldAt(sch[sid], i).ltype.Extension? {
      CellAt(sch, sid, i);
    }
  }

  /** The search for a tag that no field has: an extension is looked for, once. */
  method FindUnknown(iter: FieldIter, sch: Schema, ghost sid: nat, tag: nat, extensionRangeStart: nat)
    returns (found: bool, range1: nat)
    requires WfSchema(sch) && sid < |sch| && iter.start == sch[sid] && iter.Valid() && tag < 0x2000_0000
    requires extensionRangeStart == 0 || extensionRangeStart == 0xFFFF_FFFF
    modifies iter
    ensures iter.Valid() && (range1 == 0 || range1 == 0xFFFF_FFFF)
    ensures found <==> Known(sch[sid], tag)
    ensures found && sch[sid] != [] ==> iter.pos == FirstMatch(sch[sid], tag, 0)
    ensures !found ==> tag < range1
  {
    NonZeroTags(sch, sid);
    NoExtensions(sch, sid);
    range1 := extensionRangeStart;
    found := iter.Find(tag);
    if found {
      if iter.pos < |iter.start| {
        FoundIsFirst(sch, sid, tag, iter.pos);
      }
      return;
    }
    NoMatch(sch[sid], tag);
    if tag >= extensionRangeStart {
      var extended := iter.FindExtension();
      assert !extended;
      range1 := 0xFFFF_FFFF;
    }
  }

  /** One turn of the loop of `pb_decode_noinit`. */
  method DecodeRecord(stream: IStream, memory: Memory, sch: Schema, sid: nat, dest: Struct, iter: FieldIter,
                      fieldsSeen: array<nat>, extensionRangeStart: nat, fixedField: int, fixedSize: int,
                      redirected: bool,
                      ghost run: D.Run)
    returns (outcome: Outcome, range1: nat, field1: int, size1: int, redirected1: bool)
    requires WfSchema(sch) && sid < |sch| && stream.Valid() && stream.left > 0
    requires iter.start == sch[sid] && iter.Valid() && Entry(sch[sid], fixedField)
    requires extensionRangeStart == 0 || extensionRangeStart == 0xFFFF_FFFF
    requires Tracks(run, dest.m, memory.heap, fixedField, fixedSize, fieldsSeen[..])
    requires redirected ==> D.FixedCount(FieldAt(sch[sid], iter.pos)) && fixedField == iter.pos
    modifies stream, memory, dest, iter, fieldsSeen
    ensures stream.Valid() && stream.End() <= old(stream.End())
            && (!outcome.Broken? ==> stream.End() == old(stream.End()))
    ensures iter.Valid() && (range1 == 0 || range1 == 0xFFFF_FFFF)
    ensures var o := D.Record(sch, sid, old(stream.Rest()), run);
            && outcome == (if !o.ok then Broken else if o.stopped then Stop else Continue)
            && Tracks(o.run, dest.m, memory.heap, field1, size1, fieldsSeen[..])
            && (o.ok ==> stream.Rest() == o.rest)
    ensures !outcome.Broken? ==> Entry(sch[sid], field1)
    ensures outcome.Continue? && redirected1 ==> D.FixedCount(FieldAt(sch[sid], iter.pos)) && field1 == iter.pos
    decreases stream.left, 7
  {
    hide D.KnownRecord, D.TerminatorRecord, D.SkipField;
    range1, field1, size1, redirected1 := extensionRangeStart, fixedField, fixedSize, redirected;
    KeyIsWord(stream.Rest());
    var ok, wire, tag, eof := stream.DecodeTag();
    if !ok {
      outcome := if eof then Stop else Broken;
      return;
    }
    var before, found := iter.pos, false;
    found, range1 := FindUnknown(iter, sch, sid, tag, extensionRangeStart);
    redirected1 := redirected && found && iter.pos == before;
    if !found {
      ok := stream.SkipField(wire);
    } else if iter.start == [] {
      ok := DecodeTerminator(stream, memory, sch, dest, wire, fieldsSeen, fixedField, fixedSize, run);
    } else {
      ok, field1, size1, redirected1 :=
        DecodeKnown(stream, memory, sch, sid, dest, iter, wire, fieldsSeen, fixedField, fixedSize, redirected1, run);
    }
    outcome := if ok then Continue else Broken;
  }

  /** A key is a word, so a tag has 29 bits. */
  lemma KeyIsWord(s: seq<Byte>)
    ensures D.DecodeTag(s).Tag? ==> D.DecodeTag(s).number < 0x2000_0000
  {
    Varint32Bound(s);
  }

  lemma NothingSeen()
    ensures RequiredFields.Holds([0, 0], {})
  {
    RequiredFields.NoBits(0, 32);
    RequiredFields.NoBits(32, 32);
  }

  /** What the loop of `pb_decode_noinit` has done is a part of the whole. */
  lemma Turn(sch: Schema, sid: nat, s: seq<Byte>, run: D.Run)
    requires WfSchema(sch) && sid < |sch|
    ensures s == [] ==> D.Records(sch, sid, s, run) == D.RunOut(true, false, s, run)
    ensures s != [] ==> var o := D.Record(sch, sid, s, run);
                        D.Records(sch, sid, s, run) ==
                        if !o.ok || o.stopped then o else D.Records(sch, sid, o.rest, o.run)
  {
  }

  /** Only required fields of the table, and only those with a bit, are marked. */
  lemma {:induction false} StillTracked(sch: Schema, sid: nat, s: seq<Byte>, run: D.Run)
    requires WfSchema(sch) && sid < |sch| && (sch[sid] != [] ==> RequiredFields.Tracked(sch[sid], run.seen))
    ensures sch[sid] != [] ==> RequiredFields.Tracked(sch[sid], D.Record(sch, sid, s, run).run.seen)
  {
    match D.DecodeTag(s)
    case Tag(number, wire, rest) =>
      if Known(sch[sid], number) && sch[sid] != [] {
        var i := FirstMatch(sch[sid], number, 0);
        RequiredFields.SeenIsTracked(sch[sid], i, run.seen);
      }
    case _ =>
  }

  /** The loop of `pb_decode_noinit`. */
  method DecodeRecords(stream: IStream, memory: Memory, sch: Schema, sid: nat, dest: Struct, iter: FieldIter,
                       fieldsSeen: array<nat>) returns (ok: bool, fixedField: int, fixedSize: int)
    requires WfSchema(sch) && sid < |sch| && stream.Valid() && iter.start == sch[sid] && iter.Valid()
    requires fieldsSeen[..] == [0, 0]
    modifies stream, memory, dest, iter, fieldsSeen
    ensures stream.Valid() && stream.End() <= old(stream.End()) && (ok ==> stream.End() == old(stream.End()))
    ensures iter.Valid() && (ok ==> Entry(sch[sid], fixedField))
    ensures var o := D.Records(sch, sid, old(stream.Rest()), D.Start(old(dest.m), old(memory.heap)));
            && ok == o.ok && Tracks(o.run, dest.m, memory.heap, fixedField, fixedSize, fieldsSeen[..])
            && (ok ==> stream.Rest() == o.rest)
            && (sch[sid] != [] ==> RequiredFields.Tracked(sch[sid], o.run.seen))
    decreases stream.left, 8
  {
    hide D.Record;
    hide RequiredFields.Holds;
    var extensionRangeStart, redirected := 0, false;
    fixedField, fixedSize := -1, 0;
    ghost var run := D.Start(dest.m, memory.heap);
    ghost var all := D.Records(sch, sid, stream.Rest(), run);
    NothingSeen();
    while stream.left != 0
      invariant stream.Valid() && stream.End() == old(stream.End()) && stream.left <= old(stream.left)
      invariant iter.Valid() && Entry(sch[sid], fixedField)
      invariant extensionRangeStart == 0 || extensionRangeStart == 0xFFFF_FFFF
      invariant Tracks(run, dest.m, memory.heap, fixedField, fixedSize, fieldsSeen[..])
      invariant sch[sid] != [] ==> RequiredFields.Tracked(sch[sid], run.seen)
      invariant redirected ==> D.FixedCount(FieldAt(sch[sid], iter.pos)) && fixedField == iter.pos
      invariant all == D.Records(sch, sid, stream.Rest(), run)
      decreases stream.left
    {
      ghost var s := stream.Rest();
      Turn(sch, sid, s, run);
      StillTracked(sch, sid, s, run);
      var outcome;
      outcome, extensionRangeStart, fixedField, fixedSize, redirected :=
        DecodeRecord(stream, memory, sch, sid, dest, iter, fieldsSeen, extensionRangeStart, fixedField, fixedSize,
                     redirected, run);
      run := D.Record(sch, sid, s, run).run;
      if !outcome.Continue? {
        ok := outcome.Stop?;
        return;
      }
    }
    Turn(sch, sid, [], run);
    ok := true;
  }

  /** `pb_decode_noinit`: the record loop, then the checks of the fixed-count field
      and of the required fields. */
  method DecodeNoInit(stream: IStream, memory: Memory, sch: Schema, sid: nat, dest: Struct) returns (ok: bool)
    requires WfSchema(sch) && sid < |sch| && stream.Valid()
    modifies stream, memory, dest
    ensures stream.Valid() && stream.End() <= old(stream.End()) && (ok ==> stream.End() == old(stream.End()))
    ensures Message(D.DecodeNoInit(sch, sid, old(stream.Rest()), old(dest.m), old(memory.heap)),
            ok, dest.m, memory.heap, stream.Rest())
    decreases stream.left, 9
  {
    hide D.Records;
    var fieldsSeen := new nat[2](_ => 0);
    assert fieldsSeen[..] == [0, 0];
    var iter := new FieldIter.Begin(sch[sid]);
    ghost var o := D.Records(sch, sid, stream.Rest(), D.Start(dest.m, memory.heap));
    var fixedField, fixedSize;
    ok, fixedField, fixedSize := DecodeRecords(stream, memory, sch, sid, dest, iter, fieldsSeen);
    if !ok {
      return;
    }
    if fixedField != -1 && fixedSize != iter.start[fixedField].arraySize {
      return false;
    }
    NonZeroTags(sch, sid);
    ok := RequiredFields.RequiredPresent(iter, fieldsSeen, o.run.seen);
  }

  /** `pb_decode`. */
  method Decode(stream: IStream, memory: Memory, sch: Schema, sid: nat, dest: Struct) returns (ok: bool)
    requires WfSchema(sch) && sid < |sch| && stream.Valid()
    modifies stream, memory, dest
    ensures stream.Valid() && stream.End() <= old(stream.End()) && (ok ==> stream.End() == old(stream.End()))
    ensures Message(D.Decode(sch, sid, old(stream.Rest()), old(dest.m), old(memory.heap)),
            ok, dest.m, memory.heap, stream.Rest())
    decreases stream.left, 10
  {
    MessageSetToDefaults(sch, sid, dest);
    ok := DecodeNoInit(stream, memory, sch, sid, dest);
    if !ok {
      var released := ReleaseMessage(memory, sch, sid, Sub(dest.m));
      dest.m := Members(released);
    }
  }

  /** `pb_release`, on the struct itself. */
  method ReleaseInPlace(memory: Memory, sch: Schema, sid: nat, dest: Struct)
    requires WfSchema(sch) && sid < |sch|
    modifies memory, dest
    ensures SlotHeap(Sub(dest.m), memory.heap) == ReleaseStruct(sch, sid, Sub(old(dest.m)), old(memory.heap))
  {
    var released := ReleaseMessage(memory, sch, sid, Sub(dest.m));
    dest.m := Members(released);
  }

  /** `pb_decode_delimited` and, with `init` false, `pb_decode_delimited_noinit`: a
      message behind its length. A success takes the announced bytes, no others. */
  method DecodeDelimited(stream: IStream, memory: Memory, sch: Schema, sid: nat, dest: Struct, init: bool)
    returns (ok: bool)
    requires WfSchema(sch) && sid < |sch| && stream.Valid()
    modifies stream, memory, dest
    ensures stream.Valid()
    ensures var chunk := D.Delimited(old(stream.Rest()));
            if chunk.NoChunk? then !ok && dest.m == old(dest.m) && memory.heap == old(memory.heap)
            else
              var o := if init then D.Decode(sch, sid, chunk.body, old(dest.m), old(memory.heap))
                       else D.DecodeNoInit(sch, sid, chunk.body, old(dest.m), old(memory.heap));
              ok == o.ok && dest.m == o.store && memory.heap == o.heap && (ok ==> stream.Rest() == chunk.rest)
  {
    hide D.DecodeNoInit, D.Decode, D.Delimited, WfSchema;
    var substream;
    ok, substream := stream.MakeSubstream();
    if !ok {
      return;
    }
    ghost var end, rest := substream.End(), stream.After(substream.End());
    if init {
      ok := Decode(substream, memory, sch, sid, dest);
    } else {
      ok := DecodeNoInit(substream, memory, sch, sid, dest);
    }
    assert stream.After(end) == rest && end + stream.left == old(stream.End());
    var closed := stream.CloseSubstream(substream);
    ok := closed && ok;
  }

  /** A message in a buffer. */
  method DecodeFromBuffer(source: array<Byte>, size: nat, memory: Memory, sch: Schema, sid: nat, dest: Struct)
    returns (ok: bool, left: nat)
    requires WfSchema(sch) && sid < |sch| && size <= source.Length
    modifies memory, dest
    ensures var o := D.Decode(sch, sid, source[..size], old(dest.m), old(memory.heap));
            ok == o.ok && dest.m == o.store && memory.heap == o.heap && (ok ==> left == |o.rest|)
  {
    hide D.Decode;
    var stream := new IStream.FromBuffer(source, size);
    assert stream.Rest() == source[..size];
    ok := Decode(stream, memory, sch, sid, dest);
    left := stream.left;
  }
}
