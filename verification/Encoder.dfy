/** pb_encode.c step by step: every encoder writes to a stream, and a submessage is
    encoded twice, once to find its size and once to send it. Each is proved to
    send the bytes of EncodeSpec, as far as the stream has room. */
module Encoder {
  import opened Bits
  import opened Varint
  import opened Descriptor
  import opened Scalars
  import opened FieldIterator
  import opened Release
  import opened EncodeSpec
  import opened OutputStream

  /** What a buffer is offered is shorter than 2^64 bytes. */
  ghost predicate Short(stream: OStream, e: Emit)
    reads stream
  {
    stream.sizing || |stream.sent| + |e.out| < TWO64
  }

  // ------------------------------------------------------------ keys, strings

  /** `pb_encode_tag`. */
  method EncodeTag(stream: OStream, wire: nat, tag: nat) returns (ok: bool)
    requires stream.Valid() && wire < 8 && tag < TWO32
    modifies stream, stream.buf
    ensures stream.Sends(Emit(true, EncKey(wire, tag)), ok)
  {
    assert Pow2(3) == 8;
    DisjointOr(wire, tag, 3);
    ok := stream.EncodeVarint(BitOr(wire, tag * 8));
  }

  /** `pb_encode_tag_for_field`. */
  method EncodeTagForField(stream: OStream, f: Field) returns (ok: bool)
    requires stream.Valid() && f.tag < TWO32 && !f.ltype.Extension?
    modifies stream, stream.buf
    ensures stream.Sends(Emit(true, EncKey(WireType(f.ltype), f.tag)), ok)
  {
    var wire: nat;
    match f.ltype {
      case Bool => wire := 0;
      case VarInt => wire := 0;
      case UVarInt => wire := 0;
      case SVarInt => wire := 0;
      case Fixed32 => wire := 5;
      case Fixed64 => wire := 1;
      case _ => wire := 2;
    }
    ok := EncodeTag(stream, wire, f.tag);
  }

  /** `pb_encode_string`. */
  method EncodeString(stream: OStream, data: seq<Byte>) returns (ok: bool)
    requires stream.Valid() && |data| < TWO64
    modifies stream, stream.buf
    ensures stream.Sends(Emit(true, EncString(data)), ok)
  {
    ghost var was := stream.sent;
    ghost var length, body := Emit(true, EncVarint(U64(|data|))), Emit(true, data);
    U32Small(|data|);
    ok := stream.EncodeVarint(|data|);
    if !ok {
      EmittedStop(stream.sizing, stream.maxSize, was, stream.sent, length, body);
      return;
    }
    ghost var mid := stream.sent;
    ok := stream.Write(data, |data|, data);
    EmittedThen(stream.sizing, stream.maxSize, was, mid, stream.sent, length, body, ok);
  }

  // ------------------------------------------------------------------ scalars

  /** `pb_encode_svarint`. */
  method EncodeSVarint(stream: OStream, value: int) returns (ok: bool)
    requires stream.Valid()
    modifies stream, stream.buf
    ensures stream.Sends(Emit(true, EncVarint(ZigZag(value))), ok)
  {
    var zigzagged: nat;
    if value < 0 {
      zigzagged := TWO64 - 1 - U64(2 * U64(value));
    } else {
      zigzagged := U64(2 * U64(value));
    }
    ok := stream.EncodeVarint(zigzagged);
  }

  /** `pb_encode_fixed32`. */
  method EncodeFixed32(stream: OStream, value: nat) returns (ok: bool)
    requires stream.Valid() && value < TWO32
    modifies stream, stream.buf
    ensures stream.Sends(Emit(true, EncFixed32(value)), ok)
  {
    var bytes := new Byte[4];
    bytes[0] := value % 256;
    bytes[1] := value / 0x100 % 256;
    bytes[2] := value / 0x1_0000 % 256;
    bytes[3] := value / 0x100_0000 % 256;
    assert bytes[..] == EncFixed32(value);
    ok := stream.Write(bytes[..], 4, EncFixed32(value));
  }

  lemma LowByte(hi: nat, lo: nat, k: nat, d: nat)
    requires d > 0 && k * 256 * d == TWO32
    ensures (0x1_0000_0000 * hi + lo) / d % 256 == lo / d % 256
  {
    assert 0x1_0000_0000 * hi == d * (256 * (k * hi));
    DivUnique(0x1_0000_0000 * hi + lo, d, 256 * (k * hi) + lo / d, lo % d);
    ModOfSum(k * hi, lo / d, 256);
  }

  lemma LowBytes(hi: nat, lo: nat)
    requires lo < TWO32
    ensures var v := 0x1_0000_0000 * hi + lo;
            && v % 256 == lo % 256 && v / 0x100 % 256 == lo / 0x100 % 256
            && v / 0x1_0000 % 256 == lo / 0x1_0000 % 256 && v / 0x100_0000 % 256 == lo / 0x100_0000 % 256
  {
    var v := 0x1_0000_0000 * hi + lo;
    ModOfSum(0x100_0000 * hi, lo, 256);
    LowByte(hi, lo, 0x1_0000, 0x100);
    LowByte(hi, lo, 0x100, 0x1_0000);
    LowByte(hi, lo, 1, 0x100_0000);
  }

  lemma HighBytes(v: nat)
    ensures var hi := v / 0x1_0000_0000;
            && v / 0x100_0000_0000 == hi / 0x100 && v / 0x1_0000_0000_0000 == hi / 0x1_0000
            && v / 0x100_0000_0000_0000 == hi / 0x100_0000
  {
    DivDiv(v, 0x1_0000_0000, 0x100);
    DivDiv(v, 0x1_0000_0000, 0x1_0000);
    DivDiv(v, 0x1_0000_0000, 0x100_0000);
  }

  /** The eight shifted bytes are the two little-endian halves. */
  lemma Fixed64Bytes(v: nat)
    ensures EncFixed64(v) ==
            [v % 256, v / 0x100 % 256, v / 0x1_0000 % 256, v / 0x100_0000 % 256,
             v / 0x1_0000_0000 % 256, v / 0x100_0000_0000 % 256, v / 0x1_0000_0000_0000 % 256,
             v / 0x100_0000_0000_0000 % 256]
  {
    LowBytes(v / 0x1_0000_0000, v % 0x1_0000_0000);
    HighBytes(v);
  }

  /** `pb_encode_fixed64`. */
  method EncodeFixed64(stream: OStream, value: nat) returns (ok: bool)
    requires stream.Valid() && value < TWO64
    modifies stream, stream.buf
    ensures stream.Sends(Emit(true, EncFixed64(value)), ok)
  {
    var bytes := new Byte[8];
    bytes[0] := value % 256;
    bytes[1] := value / 0x100 % 256;
    bytes[2] := value / 0x1_0000 % 256;
    bytes[3] := value / 0x100_0000 % 256;
    bytes[4] := value / 0x1_0000_0000 % 256;
    bytes[5] := value / 0x100_0000_0000 % 256;
    bytes[6] := value / 0x1_0000_0000_0000 % 256;
    bytes[7] := value / 0x100_0000_0000_0000 % 256;
    Fixed64Bytes(value);
    ok := stream.Write(bytes[..], 8, EncFixed64(value));
  }

  /** `pb_enc_bool` to `pb_enc_fixed64`. */
  method EncodeScalar(stream: OStream, f: Field, x: Slot) returns (ok: bool)
    requires stream.Valid() && Packable(f.ltype)
    modifies stream, stream.buf
    ensures stream.Sends(EncScalar(f, x), ok)
  {
    if f.ltype.Bool? {
      ok := stream.EncodeVarint(if Number(x) != 0 then 1 else 0);
    } else if f.ltype.Fixed32? {
      ok := EncodeFixed32(stream, U32(Number(x)));
    } else if f.ltype.Fixed64? {
      ok := EncodeFixed64(stream, U64(Number(x)));
    } else if !IntWidth(f.dataSize) {
      ok := false;
    } else if f.ltype.SVarInt? {
      ok := EncodeSVarint(stream, Number(x));
    } else {
      ok := stream.EncodeVarint(U64(Number(x)));
    }
  }

  // ------------------------------------------------- emissions in instalments

  lemma {:induction false} ScalarsGrow(f: Field, xs: seq<Slot>, i: nat, n: nat)
    requires i <= n
    ensures EncScalars(f, xs, i).out <= EncScalars(f, xs, n).out
    ensures !EncScalars(f, xs, i).ok ==> EncScalars(f, xs, n) == EncScalars(f, xs, i)
    decreases n
  {
    if i >= n {
    } else {
      ScalarsGrow(f, xs, i, n - 1);
    }
  }

  lemma {:induction false} EntriesGrow(sch: Schema, f: Field, xs: seq<Slot>, i: nat, n: nat)
    requires WfSchema(sch) && KnownRef(sch, f) && i <= n
    ensures EncEntries(sch, f, xs, i).out <= EncEntries(sch, f, xs, n).out
    ensures !EncEntries(sch, f, xs, i).ok ==> EncEntries(sch, f, xs, n) == EncEntries(sch, f, xs, i)
    decreases n
  {
    if i >= n {
    } else {
      EntriesGrow(sch, f, xs, i, n - 1);
    }
  }

  lemma {:induction false} FieldsGrow(sch: Schema, sid: nat, src: Slot, i: nat, n: nat)
    requires WfSchema(sch) && sid < |sch| && i <= n <= |sch[sid]|
    ensures EncFields(sch, sid, src, i).out <= EncFields(sch, sid, src, n).out
    ensures !EncFields(sch, sid, src, i).ok ==> EncFields(sch, sid, src, n) == EncFields(sch, sid, src, i)
    decreases n
  {
    if i >= n {
    } else {
      FieldsGrow(sch, sid, src, i, n - 1);
    }
  }

  // ------------------------------------------------------------- packed arrays

  /** The items of a packed block, one after the other. */
  method EncodeScalars(stream: OStream, f: Field, xs: seq<Slot>, count: nat) returns (ok: bool)
    requires stream.Valid() && Packable(f.ltype) && count <= |xs|
    modifies stream, stream.buf
    ensures stream.Sends(EncScalars(f, xs, count), ok)
  {
    ghost var was := stream.sent;
    EmittedNothing(stream.sizing, stream.maxSize, was, true);
    var i := 0;
    while i < count
      invariant i <= count && stream.Sends(EncScalars(f, xs, i), true)
    {
      ghost var mid := stream.sent;
      ok := EncodeScalar(stream, f, xs[i]);
      ghost var before, item := EncScalars(f, xs, i), EncScalar(f, xs[i]);
      EmittedThen(stream.sizing, stream.maxSize, was, mid, stream.sent, before, item, ok);
      if !ok {
        ScalarsGrow(f, xs, i + 1, count);
        EmittedGrows(stream.sizing, stream.maxSize, was, stream.sent, Then(before, item), EncScalars(f, xs, count));
        return;
      }
      i := i + 1;
    }
    ok := true;
  }

  /** `4 * count`, `8 * count`: the size of fixed-width items needs no pass. */
  lemma {:induction false} FixedSize(f: Field, xs: seq<Slot>, count: nat)
    requires (f.ltype.Fixed32? || f.ltype.Fixed64?) && count <= |xs|
    ensures EncScalars(f, xs, count).ok
    ensures |EncScalars(f, xs, count).out| == (if f.ltype.Fixed32? then 4 else 8) * count
  {
    if count == 0 {
    } else {
      FixedSize(f, xs, count - 1);
    }
  }

  /** The size of a packed block, found without sending it. */
  method PackedSize(f: Field, xs: seq<Slot>, count: nat) returns (ok: bool, size: nat)
    requires Packable(f.ltype) && count <= |xs|
    ensures ok <==> EncScalars(f, xs, count).ok
    ensures ok ==> size == U64(|EncScalars(f, xs, count).out|)
  {
    ok := true;
    if f.ltype.Fixed32? {
      FixedSize(f, xs, count);
      size := U64(4 * count);
    } else if f.ltype.Fixed64? {
      FixedSize(f, xs, count);
      size := U64(8 * count);
    } else {
      var sizestream := new OStream.Sizing();
      ok := EncodeScalars(sizestream, f, xs, count);
      size := sizestream.written;
    }
  }

  lemma StringIsThen(b: seq<Byte>)
    ensures Then(Emit(true, EncVarint(U64(|b|))), Emit(true, b)) == Emit(true, EncString(b))
  {
  }

  /** Length and items; a sizing stream only adds the length up. */
  method EncodeBlock(stream: OStream, f: Field, xs: seq<Slot>, count: nat) returns (ok: bool)
    requires stream.Valid() && Packable(f.ltype) && count <= |xs|
    modifies stream, stream.buf
    ensures var block := EncScalars(f, xs, count);
            stream.Sends(if block.ok then Emit(true, EncString(block.out)) else Emit(false, []), ok)
  {
    ghost var block := EncScalars(f, xs, count);
    ghost var was := stream.sent;
    var size;
    ok, size := PackedSize(f, xs, count);
    if !ok {
      EmittedNothing(stream.sizing, stream.maxSize, was, false);
      return;
    }
    StringIsThen(block.out);
    ghost var length := Emit(true, EncVarint(size));
    ok := stream.EncodeVarint(size);
    if !ok {
      EmittedStop(stream.sizing, stream.maxSize, was, stream.sent, length, block);
      return;
    }
    ghost var mid := stream.sent;
    if stream.sizing {
      ok := stream.Write([], size, block.out);
    } else {
      ok := EncodeScalars(stream, f, xs, count);
    }
    EmittedThen(stream.sizing, stream.maxSize, was, mid, stream.sent, length, block, ok);
  }

  // ------------------------------------------------------------------- values

  lemma UpToNulTurn(b: seq<Byte>, size: nat, max: nat)
    requires size <= |b| && size <= max
    ensures size < max && size < |b| && b[size] != 0 ==>
              UpToNul(b[size..], max - size) == [b[size]] + UpToNul(b[size + 1..], max - (size + 1))
    ensures size == max || size == |b| || b[size] == 0 ==> UpToNul(b[size..], max - size) == []
  {
    if size < |b| {
      assert b[size..][1..] == b[size + 1..];
    }
  }

  /** The bytes before `size` are counted, the rest still has to be. */
  ghost predicate Counted(b: seq<Byte>, size: nat, max: nat) {
    size <= |b| && size <= max && b[..size] + UpToNul(b[size..], max - size) == UpToNul(b, max)
  }

  lemma NothingCounted(b: seq<Byte>, max: nat)
    ensures Counted(b, 0, max)
  {
    hide UpToNul;
    assert b[0..] == b;
  }

  lemma CountedOn(b: seq<Byte>, size: nat, max: nat)
    requires Counted(b, size, max) && size < |b| && size < max && b[size] != 0
    ensures Counted(b, size + 1, max)
  {
    hide UpToNul;
    UpToNulTurn(b, size, max);
    assert b[..size + 1] == b[..size] + [b[size]];
  }

  lemma AllCounted(b: seq<Byte>, size: nat, max: nat)
    requires Counted(b, size, max) && (size == max || size == |b| || b[size] == 0)
    ensures b[..size] == UpToNul(b, max)
  {
    hide UpToNul;
    UpToNulTurn(b, size, max);
  }

  /** The `strnlen` loop of `pb_enc_string`; the terminator follows the bytes. */
  method StringLength(b: seq<Byte>, max: nat) returns (size: nat)
    ensures size <= |b| && b[..size] == UpToNul(b, max)
  {
    hide UpToNul;
    size := 0;
    NothingCounted(b, max);
    while size < max && size < |b| && b[size] != 0
      invariant Counted(b, size, max)
    {
      CountedOn(b, size, max);
      size := size + 1;
    }
    AllCounted(b, size, max);
  }

  /** What the encoders rely on in a descriptor entry. */
  predicate Encodable(sch: Schema, f: Field)
    requires WfSchema(sch)
  {
    KnownRef(sch, f) && f.tag < TWO32 && !f.ltype.Extension? && f.dataSize <= PB_SIZE_MAX
  }

  /** The entry of PB_ENCODERS for the field. */
  method EncodeValue(stream: OStream, sch: Schema, f: Field, x: Slot) returns (ok: bool)
    requires WfSchema(sch) && Encodable(sch, f) && stream.Valid() && Short(stream, EncValue(sch, f, x))
    modifies stream, stream.buf
    ensures stream.Sends(EncValue(sch, f, x), ok)
    decreases x, 3
  {
    hide EncFields, EncScalar, EncString, UpToNul;
    EmittedNothing(stream.sizing, stream.maxSize, stream.sent, false);
    if Packable(f.ltype) {
      if x.Nil? {
        return false;
      }
      ok := EncodeScalar(stream, f, x);
    } else if f.ltype.Bytes? {
      if |Contents(x)| > PB_SIZE_MAX || (f.atype.Static? && BYTES_HEADER + |Contents(x)| > f.dataSize) {
        return false;
      }
      ok := EncodeString(stream, Contents(x));
    } else if f.ltype.String? {
      var max := if f.atype.Pointer? then SIZE_MAX else f.dataSize;
      var size := StringLength(Contents(x), max);
      ok := EncodeString(stream, Contents(x)[..size]);
    } else if f.ltype.FixedLengthBytes? {
      if |Contents(x)| != f.dataSize {
        return false;
      }
      ok := EncodeString(stream, Contents(x));
    } else if f.ptr.Fields? && x.Sub? {
      ok := EncodeSubmessage(stream, sch, f.ptr.id, x);
    } else {
      ok := false;
    }
  }

  /** `pb_encode_submessage`. The pass that sends emits exactly the bytes the pass
      that sizes has counted, so "submsg size changed" cannot happen. */
  method EncodeSubmessage(stream: OStream, sch: Schema, id: nat, src: Slot) returns (ok: bool)
    requires WfSchema(sch) && id < |sch| && stream.Valid()
    requires var body := EncMessage(sch, id, src); body.ok ==> Short(stream, Emit(true, EncString(body.out)))
    modifies stream, stream.buf
    ensures var body := EncMessage(sch, id, src);
            stream.Sends(if body.ok then Emit(true, EncString(body.out)) else Emit(false, []), ok)
    decreases src, 2
  {
    ghost var was := stream.sent;
    ghost var body := EncMessage(sch, id, src);
    var substream := new OStream.Sizing();
    ok := EncodeMessage(substream, sch, id, src);
    if !ok {
      EmittedNothing(stream.sizing, stream.maxSize, was, false);
      return;
    }
    var size := substream.written;
    StringIsThen(body.out);
    ghost var length := Emit(true, EncVarint(size));
    ok := stream.EncodeVarint(size);
    if !ok {
      EmittedStop(stream.sizing, stream.maxSize, was, stream.sent, length, body);
      return;
    }
    ghost var mid := stream.sent;
    if stream.sizing {
      ok := stream.Write([], size, body.out);
    } else {
      ok := SendSubmessage(stream, sch, id, src, size);
    }
    EmittedThen(stream.sizing, stream.maxSize, was, mid, stream.sent, length, body, ok);
  }

  /** Nothing is sent when the announced body does not fit. */
  lemma TooLong(was: seq<Byte>, body: Emit, limit: nat)
    requires |was| + |body.out| > limit
    ensures Emitted(false, limit, was, was, body, false)
  {
    assert was + [] == was;
  }

  /** What a substream limited to the announced size sends. */
  lemma EmittedInside(was: seq<Byte>, now: seq<Byte>, body: Emit, size: nat, limit: nat, ok: bool)
    requires Emitted(false, size, [], now, body, ok) && body.ok && size == |body.out| && |was| + size <= limit
    ensures |now| == size && Emitted(false, limit, was, was + now, body, ok)
  {
    assert [] + body.out == body.out;
  }

  /** The second pass, on a stream limited to the announced size. */
  method SendSubmessage(stream: OStream, sch: Schema, id: nat, src: Slot, size: nat) returns (ok: bool)
    requires WfSchema(sch) && id < |sch| && stream.Valid() && !stream.sizing
    requires var body := EncMessage(sch, id, src); body.ok && size == U64(|body.out|) && Short(stream, body)
    modifies stream, stream.buf
    ensures stream.Sends(EncMessage(sch, id, src), ok)
    decreases src, 1
  {
    hide EncFields, WfSchema, U64, Emitted;
    ghost var was, body := stream.sent, EncMessage(sch, id, src);
    U32Small(|body.out|);
    U32Small(stream.written + size);
    if U64(stream.written + size) > stream.maxSize {
      TooLong(was, body, stream.maxSize);
      return false;
    }
    var substream := new OStream.Limited(stream, size);
    var status := EncodeMessage(substream, sch, id, src);
    assert stream.buf[stream.start..stream.state] == stream.buf[..stream.state][stream.start..];
    U32Small(|substream.sent|);
    EmittedInside(was, substream.sent, body, size, stream.maxSize, status);
    stream.Resume(substream);
    assert stream.buf[..stream.start] == stream.buf[..substream.start][..stream.start];
    ok := status && substream.written == size;
  }

  // ------------------------------------------------------------------- fields

  /** The key and the value. */
  method EncodeTagged(stream: OStream, sch: Schema, f: Field, x: Slot) returns (ok: bool)
    requires WfSchema(sch) && Encodable(sch, f) && stream.Valid() && Short(stream, EncTagged(sch, f, x))
    modifies stream, stream.buf
    ensures stream.Sends(EncTagged(sch, f, x), ok)
    decreases x, 4
  {
    ghost var was, key, value := stream.sent, Emit(true, EncKey(WireType(f.ltype), f.tag)), EncValue(sch, f, x);
    ok := EncodeTagForField(stream, f);
    if !ok {
      EmittedStop(stream.sizing, stream.maxSize, was, stream.sent, key, value);
      return;
    }
    ghost var mid := stream.sent;
    ok := EncodeValue(stream, sch, f, x);
    EmittedThen(stream.sizing, stream.maxSize, was, mid, stream.sent, key, value, ok);
  }

  lemma EmptyString()
    ensures EncString([]) == [0]
  {
  }

  /** The same for an item behind a pointer; the encoders of strings and bytes take
      a null pointer for an empty value. */
  method EncodeTarget(stream: OStream, sch: Schema, f: Field, x: Slot) returns (ok: bool)
    requires WfSchema(sch) && Encodable(sch, f) && stream.Valid() && Short(stream, EncTarget(sch, f, x))
    modifies stream, stream.buf
    ensures stream.Sends(EncTarget(sch, f, x), ok)
    decreases x, 4
  {
    if x.Block? && x.cells != [] {
      ok := EncodeTagged(stream, sch, f, x.cells[0]);
      return;
    }
    ghost var was, key := stream.sent, Emit(true, EncKey(WireType(f.ltype), f.tag));
    ghost var value := if f.ltype.String? || f.ltype.Bytes? then Emit(true, [0]) else Emit(false, []);
    ok := EncodeTagForField(stream, f);
    if !ok {
      EmittedStop(stream.sizing, stream.maxSize, was, stream.sent, key, value);
      return;
    }
    ghost var mid := stream.sent;
    EmptyString();
    EmittedNothing(stream.sizing, stream.maxSize, mid, false);
    ok := false;
    if f.ltype.String? || f.ltype.Bytes? {
      ok := EncodeString(stream, []);
    }
    EmittedThen(stream.sizing, stream.maxSize, was, mid, stream.sent, key, value, ok);
  }

  /** The emission of one unpacked item; the entries of a heap array of strings are
      pointers themselves. */
  function EntryEmit(sch: Schema, f: Field, x: Slot): Emit
    requires WfSchema(sch) && KnownRef(sch, f)
  {
    if f.atype.Pointer? && (f.ltype.String? || f.ltype.Bytes?) then EncTarget(sch, f, x) else EncTagged(sch, f, x)
  }

  lemma EntriesStart(sch: Schema, f: Field, xs: seq<Slot>)
    requires WfSchema(sch) && KnownRef(sch, f)
    ensures EncEntries(sch, f, xs, 0) == Emit(true, [])
  {
  }

  lemma EntriesStep(sch: Schema, f: Field, xs: seq<Slot>, i: nat)
    requires WfSchema(sch) && KnownRef(sch, f) && i < |xs|
    ensures EncEntries(sch, f, xs, i + 1) == Then(EncEntries(sch, f, xs, i), EntryEmit(sch, f, xs[i]))
  {
  }

  method EncodeEntry(stream: OStream, sch: Schema, f: Field, x: Slot) returns (ok: bool)
    requires WfSchema(sch) && Encodable(sch, f) && stream.Valid() && Short(stream, EntryEmit(sch, f, x))
    modifies stream, stream.buf
    ensures stream.Sends(EntryEmit(sch, f, x), ok)
    decreases x, 5
  {
    hide EncTarget, EncTagged;
    if f.atype.Pointer? && (f.ltype.String? || f.ltype.Bytes?) {
      ok := EncodeTarget(stream, sch, f, x);
    } else {
      ok := EncodeTagged(stream, sch, f, x);
    }
  }

  /** The unpacked items of an array. */
  method EncodeEntries(stream: OStream, sch: Schema, f: Field, xs: seq<Slot>, count: nat) returns (ok: bool)
    requires WfSchema(sch) && Encodable(sch, f) && stream.Valid() && count <= |xs|
    requires Short(stream, EncEntries(sch, f, xs, count))
    modifies stream, stream.buf
    ensures stream.Sends(EncEntries(sch, f, xs, count), ok)
    decreases xs, 0
  {
    EntriesStart(sch, f, xs);
    hide EncEntries, EntryEmit;
    ghost var was := stream.sent;
    EmittedNothing(stream.sizing, stream.maxSize, was, true);
    var i := 0;
    while i < count
      invariant i <= count && stream.Sends(EncEntries(sch, f, xs, i), true)
    {
      ghost var mid := stream.sent;
      ghost var before, item := EncEntries(sch, f, xs, i), EntryEmit(sch, f, xs[i]);
      EntriesGrow(sch, f, xs, i + 1, count);
      EntriesStep(sch, f, xs, i);
      ok := EncodeEntry(stream, sch, f, xs[i]);
      EmittedThen(stream.sizing, stream.maxSize, was, mid, stream.sent, before, item, ok);
      if !ok {
        EmittedGrows(stream.sizing, stream.maxSize, was, stream.sent, Then(before, item),
                     EncEntries(sch, f, xs, count));
        return;
      }
      i := i + 1;
    }
    ok := true;
  }

  /** `encode_array`. */
  method EncodeArray(stream: OStream, sch: Schema, f: Field, xs: seq<Slot>, count: int) returns (ok: bool)
    requires WfSchema(sch) && Encodable(sch, f) && stream.Valid() && Short(stream, EncArray(sch, f, xs, count))
    modifies stream, stream.buf
    ensures stream.Sends(EncArray(sch, f, xs, count), ok)
    decreases xs, 1
  {
    ghost var was := stream.sent;
    EmittedNothing(stream.sizing, stream.maxSize, was, false);
    EmittedNothing(stream.sizing, stream.maxSize, was, true);
    if count <= 0 {
      return true;
    }
    if (f.atype.Static? && count > f.arraySize) || count > |xs| {
      return false;
    }
    if Packable(f.ltype) {
      ghost var key, block := Emit(true, EncKey(WT_STRING, f.tag)), EncScalars(f, xs, count);
      ghost var value := if block.ok then Emit(true, EncString(block.out)) else Emit(false, []);
      ok := EncodeTag(stream, WT_STRING, f.tag);
      if !ok {
        EmittedStop(stream.sizing, stream.maxSize, was, stream.sent, key, value);
        return;
      }
      ghost var mid := stream.sent;
      ok := EncodeBlock(stream, f, xs, count);
      EmittedThen(stream.sizing, stream.maxSize, was, mid, stream.sent, key, value, ok);
    } else {
      ok := EncodeEntries(stream, sch, f, xs, count);
    }
  }

  /** The repeated case of `encode_basic_field`. */
  method EncodeRepeated(stream: OStream, sch: Schema, f: Field, data: Slot, size: Slot) returns (ok: bool)
    requires WfSchema(sch) && Encodable(sch, f) && f.htype.Repeated?
    requires stream.Valid() && Short(stream, EncField(sch, f, data, size))
    modifies stream, stream.buf
    ensures stream.Sends(EncField(sch, f, data, size), ok)
    decreases data, 4
  {
    hide EncArray;
    var count := if f.sizeOffset != 0 then Number(size) else f.arraySize;
    match data {
      case Arr(items) =>
        ok := EncodeArray(stream, sch, f, items, count);
      case Block(_, cells) =>
        ok := EncodeArray(stream, sch, f, cells, count);
      case _ =>
        ok := count <= 0;
        EmittedNothing(stream.sizing, stream.maxSize, stream.sent, ok);
    }
  }

  // ------------------------------------------------------------- proto3 zeros

  lemma ZeroStep(sch: Schema, sid: nat, src: Slot, i: nat)
    requires WfSchema(sch) && sid < |sch| && i < |sch[sid]|
    ensures KnownRef(sch, sch[sid][i])
    ensures AllDefault(sch, sid, src, i + 1) <==>
            && AllDefault(sch, sid, src, i)
            && (src.Sub? && DataAt(sch[sid], i) in src.members ==>
                  IsDefault(sch, sch[sid][i], src.members[DataAt(sch[sid], i)], CellOf(sch[sid], src.members, i).size))
  {
    hide IsDefault;
    FieldEncodable(sch, sid, i);
  }

  lemma {:induction false} ZeroPrefix(sch: Schema, sid: nat, src: Slot, i: nat, n: nat)
    requires WfSchema(sch) && sid < |sch| && i <= n <= |sch[sid]| && AllDefault(sch, sid, src, n)
    ensures AllDefault(sch, sid, src, i)
    decreases n
  {
    if i == n {
    } else {
      ZeroStep(sch, sid, src, n - 1);
      ZeroPrefix(sch, sid, src, i, n - 1);
    }
  }

  /** The loop over the members of a submessage: none of them is non-zero. */
  method CheckMembers(sch: Schema, id: nat, src: Slot) returns (zero: bool)
    requires WfSchema(sch) && id < |sch|
    ensures zero <==> AllDefault(sch, id, src, |sch[id]|)
    decreases src, 0
  {
    hide IsDefault, AllDefault, WfSchema;
    NothingYet(sch, id, src);
    var iter := new FieldIter.Begin(sch[id]);
    forall i | 0 <= i < |sch[id]| ensures sch[id][i].tag != 0 {
      FieldEncodable(sch, id, i);
    }
    if FieldAt(sch[id], 0).tag == 0 {
      return true;
    }
    while true
      invariant iter.Valid() && iter.start == sch[id] && iter.pos < |sch[id]|
      invariant AllDefault(sch, id, src, iter.pos)
      decreases |sch[id]| - iter.pos
    {
      ghost var i := iter.pos;
      var f := iter.start[iter.pos];
      FieldEncodable(sch, id, i);
      ZeroStep(sch, id, src, i);
      if src.Sub? && iter.pData in src.members {
        var size := if f.sizeOffset != 0 then Look(src.members, iter.pData + f.sizeOffset) else Undef;
        zero := CheckProto3Default(sch, f, src.members[iter.pData], size);
        if !zero {
          if AllDefault(sch, id, src, |sch[id]|) {
            ZeroPrefix(sch, id, src, i + 1, |sch[id]|);
          }
          return;
        }
      }
      var more := iter.Next();
      if !more {
        break;
      }
    }
    zero := true;
  }

  lemma NothingYet(sch: Schema, sid: nat, src: Slot)
    requires WfSchema(sch) && sid < |sch|
    ensures AllDefault(sch, sid, src, 0)
  {
  }

  /** `pb_check_proto3_default_value`. */
  method CheckProto3Default(sch: Schema, f: Field, data: Slot, size: Slot) returns (zero: bool)
    requires WfSchema(sch) && KnownRef(sch, f) && !f.ltype.Extension?
    ensures zero <==> IsDefault(sch, f, data, size)
    decreases data, 1
  {
    if f.htype.Required? {
      return false;
    } else if f.htype.Repeated? {
      return f.sizeOffset != 0 && Number(size) == 0;
    } else if f.htype.OneOf? {
      return Number(size) == 0;
    } else if f.sizeOffset != 0 {
      return Number(size) == 0;
    }
    if f.atype.Pointer? {
      return data.Nil?;
    }
    match f.ltype {
      case Bytes => zero := Contents(data) == [];
      case String => zero := Contents(data) == [] || Contents(data)[0] == 0;
      case FixedLengthBytes => zero := f.dataSize == 0;
      case SubMessage =>
        zero := false;
        if f.ptr.Fields? {
          zero := CheckMembers(sch, f.ptr.id, data);
        }
      case _ => zero := Number(data) == 0;
    }
  }

  /** Whether `encode_basic_field` sends a field that is not repeated. */
  method CheckPresence(sch: Schema, f: Field, data: Slot, size: Slot) returns (present: bool)
    requires WfSchema(sch) && KnownRef(sch, f) && !f.ltype.Extension? && !f.htype.Repeated?
    ensures present <==> Present(sch, f, data, size)
    decreases data, 2
  {
    hide IsDefault;
    var implicitHas := true;
    if f.sizeOffset == 0 && f.htype.Optional? {
      var zero := CheckProto3Default(sch, f, data, size);
      implicitHas := !zero;
    }
    if f.atype.Pointer? {
      implicitHas := !data.Nil?;
    }
    if f.htype.Required? {
      present := true;
    } else if f.htype.Optional? {
      present := if f.sizeOffset != 0 then Number(size) != 0 else implicitHas;
    } else {
      present := Number(size) == f.tag;
    }
  }

  /** `encode_basic_field`. */
  method EncodeBasicField(stream: OStream, sch: Schema, f: Field, data: Slot, size: Slot) returns (ok: bool)
    requires WfSchema(sch) && Encodable(sch, f) && !f.atype.Callback?
    requires stream.Valid() && Short(stream, EncField(sch, f, data, size))
    modifies stream, stream.buf
    ensures stream.Sends(EncField(sch, f, data, size), ok)
    decreases data, 5
  {
    hide EncTagged, EncTarget, EncArray, Present;
    if f.htype.Repeated? {
      ok := EncodeRepeated(stream, sch, f, data, size);
      return;
    }
    var present := CheckPresence(sch, f, data, size);
    if present && f.htype.Required? && f.atype.Pointer? && data.Nil? {
      EmittedNothing(stream.sizing, stream.maxSize, stream.sent, false);
      return false;
    }
    if !present {
      EmittedNothing(stream.sizing, stream.maxSize, stream.sent, true);
      return true;
    }
    if f.atype.Static? {
      ok := EncodeTagged(stream, sch, f, data);
    } else {
      ok := EncodeTarget(stream, sch, f, data);
    }
  }

  // ----------------------------------------------------------------- messages

  lemma FieldEncodable(sch: Schema, sid: nat, i: nat)
    requires WfSchema(sch) && sid < |sch| && i < |sch[sid]|
    ensures Encodable(sch, sch[sid][i]) && !sch[sid][i].atype.Callback? && sch[sid][i].tag != 0
    ensures SizeAt(sch[sid], i) == DataAt(sch[sid], i) + sch[sid][i].sizeOffset
  {
    assert WfMessage(sch, sid) && OkField(sch, sid, i) && CounterBesideData(sch[sid], i);
  }

  /** The emission of field `i`. */
  function FieldEmit(sch: Schema, sid: nat, src: Slot, i: nat): Emit
    requires WfSchema(sch) && sid < |sch| && i < |sch[sid]|
  {
    FieldEncodable(sch, sid, i);
    if src.Sub? && DataAt(sch[sid], i) in src.members then
      EncField(sch, sch[sid][i], src.members[DataAt(sch[sid], i)], CellOf(sch[sid], src.members, i).size)
    else Emit(false, [])
  }

  lemma NoFields(sch: Schema, sid: nat, src: Slot)
    requires WfSchema(sch) && sid < |sch|
    ensures EncFields(sch, sid, src, 0) == Emit(true, [])
  {
  }

  lemma FieldsStep(sch: Schema, sid: nat, src: Slot, i: nat)
    requires WfSchema(sch) && sid < |sch| && i < |sch[sid]|
    ensures EncFields(sch, sid, src, i + 1) == Then(EncFields(sch, sid, src, i), FieldEmit(sch, sid, src, i))
  {
  }

  /** The field the iterator stands at. */
  method EncodeFieldAt(stream: OStream, sch: Schema, iter: FieldIter, ghost sid: nat, src: Slot) returns (ok: bool)
    requires WfSchema(sch) && sid < |sch| && iter.start == sch[sid] && iter.Valid() && iter.pos < |sch[sid]|
    requires stream.Valid() && Short(stream, FieldEmit(sch, sid, src, iter.pos))
    modifies stream, stream.buf
    ensures stream.Sends(FieldEmit(sch, sid, src, iter.pos), ok)
    decreases src, 0, 0
  {
    FieldEncodable(sch, sid, iter.pos);
    EmittedNothing(stream.sizing, stream.maxSize, stream.sent, false);
    var f := iter.start[iter.pos];
    if !src.Sub? || iter.pData !in src.members {
      return false;
    }
    var size := if f.sizeOffset != 0 then Look(src.members, iter.pData + f.sizeOffset) else Undef;
    ok := EncodeBasicField(stream, sch, f, src.members[iter.pData], size);
  }

  /** One turn of the loop of `pb_encode`. */
  method EncodeNext(stream: OStream, sch: Schema, iter: FieldIter, ghost sid: nat, src: Slot, ghost was: seq<Byte>)
    returns (ok: bool)
    requires WfSchema(sch) && sid < |sch| && iter.start == sch[sid] && iter.Valid() && iter.pos < |sch[sid]|
    requires stream.Valid() && (stream.sizing || |was| + |EncMessage(sch, sid, src).out| < TWO64)
    requires Emitted(stream.sizing, stream.maxSize, was, stream.sent, EncFields(sch, sid, src, iter.pos), true)
    modifies stream, stream.buf
    ensures stream.Valid()
    ensures !stream.sizing ==> stream.start <= stream.buf.Length &&
                               stream.buf[..stream.start] == old(stream.buf[..stream.start])
    ensures Emitted(stream.sizing, stream.maxSize, was, stream.sent,
                    if ok then EncFields(sch, sid, src, iter.pos + 1) else EncMessage(sch, sid, src), ok)
    decreases src, 0, 1
  {
    hide EncFields, FieldEmit;
    ghost var mid, i := stream.sent, iter.pos;
    ghost var before, item := EncFields(sch, sid, src, i), FieldEmit(sch, sid, src, i);
    FieldsStep(sch, sid, src, i);
    FieldsGrow(sch, sid, src, i + 1, |sch[sid]|);
    ok := EncodeFieldAt(stream, sch, iter, sid, src);
    EmittedThen(stream.sizing, stream.maxSize, was, mid, stream.sent, before, item, ok);
    if !ok {
      EmittedGrows(stream.sizing, stream.maxSize, was, stream.sent, Then(before, item), EncMessage(sch, sid, src));
    }
  }

  /** `pb_encode`. */
  method EncodeMessage(stream: OStream, sch: Schema, sid: nat, src: Slot) returns (ok: bool)
    requires WfSchema(sch) && sid < |sch| && stream.Valid() && Short(stream, EncMessage(sch, sid, src))
    modifies stream, stream.buf
    ensures stream.Sends(EncMessage(sch, sid, src), ok)
    decreases src, 0, 2
  {
    hide EncFields, Emitted, WfSchema;
    ghost var was := stream.sent;
    NoFields(sch, sid, src);
    EmittedNothing(stream.sizing, stream.maxSize, was, true);
    var iter := new FieldIter.Begin(sch[sid]);
    forall i | 0 <= i < |sch[sid]| ensures sch[sid][i].tag != 0 {
      FieldEncodable(sch, sid, i);
    }
    if FieldAt(sch[sid], 0).tag == 0 {
      return true;
    }
    while true
      invariant iter.Valid() && iter.start == sch[sid] && iter.pos < |sch[sid]|
      invariant stream.Sends(EncFields(sch, sid, src, iter.pos), true)
      decreases |sch[sid]| - iter.pos
    {
      ok := EncodeNext(stream, sch, iter, sid, src, was);
      if !ok {
        return;
      }
      var more := iter.Next();
      if !more {
        break;
      }
    }
    ok := true;
  }

  /** `pb_get_encoded_size`. */
  method GetEncodedSize(sch: Schema, sid: nat, src: Slot) returns (ok: bool, size: nat)
    requires WfSchema(sch) && sid < |sch|
    ensures ok <==> EncMessage(sch, sid, src).ok
    ensures ok ==> size == U64(|EncMessage(sch, sid, src).out|)
  {
    var stream := new OStream.Sizing();
    ok := EncodeMessage(stream, sch, sid, src);
    size := stream.written;
  }

  /** A message encoded into a buffer: it succeeds exactly when the encoded size is
      at most the size of the buffer, and a failure leaves a prefix of the bytes. */
  method EncodeIntoBuffer(target: array<Byte>, size: nat, sch: Schema, sid: nat, src: Slot)
    returns (ok: bool, written: nat)
    requires WfSchema(sch) && sid < |sch| && size <= target.Length < TWO64
    requires |EncMessage(sch, sid, src).out| < TWO64
    modifies target
    ensures ok <==> EncMessage(sch, sid, src).ok && |EncMessage(sch, sid, src).out| <= size
    ensures written <= size && target[..written] <= EncMessage(sch, sid, src).out
    ensures ok ==> target[..written] == EncMessage(sch, sid, src).out
  {
    var stream := new OStream.FromBuffer(target, size);
    ok := EncodeMessage(stream, sch, sid, src);
    written := stream.written;
  }

  /** `pb_encode_delimited`. */
  method EncodeDelimited(stream: OStream, sch: Schema, sid: nat, src: Slot) returns (ok: bool)
    requires WfSchema(sch) && sid < |sch| && stream.Valid()
    requires var body := EncMessage(sch, sid, src); body.ok ==> Short(stream, Emit(true, EncString(body.out)))
    modifies stream, stream.buf
    ensures var body := EncMessage(sch, sid, src);
            stream.Sends(if body.ok then Emit(true, EncString(body.out)) else Emit(false, []), ok)
  {
    ok := EncodeSubmessage(stream, sch, sid, src);
  }

  /** `pb_encode_nullterminated`: a zero byte ends the message. */
  method EncodeNullTerminated(stream: OStream, sch: Schema, sid: nat, src: Slot) returns (ok: bool)
    requires WfSchema(sch) && sid < |sch| && stream.Valid() && Short(stream, EncMessage(sch, sid, src))
    modifies stream, stream.buf
    ensures stream.Sends(Then(EncMessage(sch, sid, src), Emit(true, [0])), ok)
  {
    ghost var was, body := stream.sent, EncMessage(sch, sid, src);
    ok := EncodeMessage(stream, sch, sid, src);
    if !ok {
      EmittedStop(stream.sizing, stream.maxSize, was, stream.sent, body, Emit(true, [0]));
      return;
    }
    ghost var mid := stream.sent;
    ok := stream.Write([0], 1, [0]);
    EmittedThen(stream.sizing, stream.maxSize, was, mid, stream.sent, body, Emit(true, [0]), ok);
  }
}
