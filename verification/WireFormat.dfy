/** The Protocol Buffers wire format in plain numbers: what every encoder emits and what
    a decoder skips, whatever the library calls it. */
module WireFormat {
  import opened Bits
  import opened Varint
  import opened Descriptor
  import opened Scalars
  import opened Release
  import opened EncodeSpec
  import D = DecodeSpec
  import opened Structs

  // -------------------------------------------------------------------- keys

  /** The wire type of each type of field: 0 for varints, 1 for eight bytes, 2 for a length
      and that many bytes, 5 for four bytes. */
  function WireNumber(l: LType): nat {
    match l
    case Fixed64 => 1
    case Bytes => 2
    case String => 2
    case SubMessage => 2
    case FixedLengthBytes => 2
    case Fixed32 => 5
    case _ => 0
  }

  /** A field that is not packed is the varint of eight times its tag plus its wire type,
      and the value. */
  lemma TaggedBytes(sch: Schema, f: Field, x: Slot)
    requires WfSchema(sch) && KnownRef(sch, f)
    ensures EncTagged(sch, f, x).ok == EncValue(sch, f, x).ok
    ensures EncTagged(sch, f, x).out == EncVarint(8 * f.tag + WireNumber(f.ltype)) + EncValue(sch, f, x).out
  {
    hide EncValue, EncVarint;
  }

  /** A key is read back as the tag and the wire type it was made of; a zero ends the
      message. */
  lemma KeyBytes(tag: nat, wire: nat, t: seq<Byte>)
    requires 1 <= tag < 0x2000_0000 && wire < 8
    ensures D.DecodeTag(EncVarint(8 * tag + wire) + t) == D.Tag(tag, wire, t)
    ensures D.DecodeTag([0] + t) == D.EndTag(t)
  {
    hide Varint32, EncVarint;
    RoundTrip32(8 * tag + wire, t);
    ZeroKey(t);
  }

  lemma ZeroKey(t: seq<Byte>)
    ensures Varint32([0] + t) == Got(0, t)
  {
    RoundTrip32(0, t);
    assert EncVarint(0) == [0];
  }

  // ------------------------------------------------------------------ values

  /** Two's complement in 64 bits. */
  function Word64(n: int): nat
    requires -0x8000_0000_0000_0000 <= n < 0x1_0000_0000_0000_0000
  {
    if n < 0 then n + 0x1_0000_0000_0000_0000 else n
  }

  /** Byte `k`, from the least significant one. */
  function ByteOf(v: nat, k: nat): nat {
    v / Pow2(8 * k) % 256
  }

  lemma Bytes8()
    ensures Pow2(0) == 1 && Pow2(8) == 0x100 && Pow2(16) == 0x1_0000 && Pow2(24) == 0x100_0000
  {
    assert Pow2(4) == 16;
    Pow2Add(4, 4);
    Pow2Add(8, 8);
    Pow2Add(16, 8);
  }

  lemma Fixed32Bytes(v: nat, k: nat)
    requires v < 0x1_0000_0000 && k < 4
    ensures EncFixed32(v)[k] == ByteOf(v, k)
  {
    hide Pow2;
    Bytes8();
    assert k == 0 || k == 1 || k == 2 || k == 3;
  }

  lemma Fixed64Bytes(v: nat, k: nat)
    requires v < 0x1_0000_0000_0000_0000 && k < 8
    ensures EncFixed64(v)[k] == ByteOf(v, k)
  {
    hide Pow2, EncFixed32;
    var lo, hi := v % 0x1_0000_0000, v / 0x1_0000_0000;
    if k < 4 {
      Fixed32Bytes(lo, k);
      LowByte(v, k);
    } else {
      Fixed32Bytes(hi, k - 4);
      HighByte(v, k - 4);
    }
  }

  lemma Pow32()
    ensures Pow2(32) == 0x1_0000_0000
  {
    Bytes8();
    Pow2Add(16, 16);
  }

  lemma HighByte(v: nat, j: nat)
    requires j < 4
    ensures ByteOf(v, j + 4) == ByteOf(v / 0x1_0000_0000, j)
  {
    hide Pow2;
    Pow32();
    Pow2Add(32, 8 * j);
    DivDiv(v, Pow2(32), Pow2(8 * j));
  }

  lemma Shifted(x: nat, r: nat, d: nat)
    requires d > 0
    ensures (d * x + r) / d == x + r / d
  {
    var k, m := r / d, r % d;
    assert d * x + r == d * (x + k) + m;
    DivUnique(d * x + r, d, x + k, m);
  }

  lemma SameLow(c: nat, x: nat)
    ensures (256 * c + x) % 256 == x % 256
  {
  }

  lemma LowByteAt(q: nat, r: nat, d: nat, c: nat)
    requires d > 0
    ensures (d * (256 * (c * q)) + r) / d % 256 == r / d % 256
  {
    Shifted(256 * (c * q), r, d);
    SameLow(c * q, r / d);
  }

  lemma LowByte(v: nat, k: nat)
    requires k < 4
    ensures ByteOf(v, k) == ByteOf(v % 0x1_0000_0000, k)
  {
    hide Pow2;
    Bytes8();
    var q, r := v / 0x1_0000_0000, v % 0x1_0000_0000;
    if k == 0 {
      LowByteAt(q, r, 1, 0x100_0000);
    } else if k == 1 {
      LowByteAt(q, r, 0x100, 0x1_0000);
    } else if k == 2 {
      LowByteAt(q, r, 0x1_0000, 0x100);
    } else {
      LowByteAt(q, r, 0x100_0000, 1);
    }
  }

  /** Numbers: a bool is one byte, 0 or 1; a signed integer is the varint of its 64-bit
      two's complement, an unsigned one its varint, a zigzag one the varint of 2n, or
      of -2n - 1 when n is negative; a fixed-width one is little-endian. */
  lemma NumberBytes(f: Field, n: int)
    requires WfWidth(f) && Packable(f.ltype) && (f.ltype.Bool? || InRange(f, n))
    ensures var e := EncScalar(f, Num(n));
            && e.ok
            && match f.ltype
               case Bool => e.out == [if n == 0 then 0 else 1]
               case VarInt => e.out == EncVarint(Word64(n))
               case UVarInt => e.out == EncVarint(n)
               case SVarInt => e.out == EncVarint(if n < 0 then -2 * n - 1 else 2 * n)
               case Fixed32 => |e.out| == 4 && forall k :: 0 <= k < 4 ==> e.out[k] == ByteOf(n, k)
               case Fixed64 => |e.out| == 8 && forall k :: 0 <= k < 8 ==> e.out[k] == ByteOf(n, k)
               case _ => true
  {
    hide Pow2, EncFixed32, EncFixed64, ZigZag, ByteOf;
    match f.ltype
    case Bool => assert EncVarint(0) == [0] && EncVarint(1) == [1];
    case VarInt => U64Word(n);
    case UVarInt => U32Small(n);
    case SVarInt => ZigZagValue(n);
    case Fixed32 =>
      U32Small(n);
      forall k | 0 <= k < 4 ensures EncFixed32(n)[k] == ByteOf(n, k) {
        Fixed32Bytes(n, k);
      }
    case Fixed64 =>
      U32Small(n);
      forall k | 0 <= k < 8 ensures EncFixed64(n)[k] == ByteOf(n, k) {
        Fixed64Bytes(n, k);
      }
  }

  lemma U64Word(n: int)
    requires -0x8000_0000_0000_0000 <= n < 0x1_0000_0000_0000_0000
    ensures U64(n) == Word64(n)
  {
  }

  /** A string is sent up to its first NUL, or up to the end of its array. */
  lemma {:induction false} UpToFirstNul(b: seq<Byte>, max: nat)
    ensures var r := UpToNul(b, max);
            && r <= b && |r| <= max && NoNul(r)
            && (|r| == max || |r| == |b| || b[|r|] == 0)
    decreases max
  {
    if max == 0 || b == [] || b[0] == 0 {
    } else {
      UpToFirstNul(b[1..], max - 1);
      assert b == [b[0]] + b[1..];
    }
  }

  /** A length and that many bytes. */
  function Delimited(b: seq<Byte>): seq<Byte> {
    EncVarint(|b|) + b
  }

  /** A string is sent up to its first NUL, behind its length. */
  lemma StringBytes(sch: Schema, f: Field, x: Slot)
    requires WfSchema(sch) && KnownRef(sch, f) && f.ltype.String? && !f.atype.Callback?
    requires |Contents(x)| < 0x1_0000_0000_0000_0000
    ensures exists b: seq<Byte> {:trigger Delimited(b)} ::
              && EncValue(sch, f, x) == Emit(true, Delimited(b)) && b <= Contents(x) && NoNul(b)
              && (|b| == |Contents(x)| || Contents(x)[|b|] == 0 || (f.atype.Static? && |b| == f.dataSize))
              && (f.atype.Static? ==> |b| <= f.dataSize)
  {
    hide UpToNul, EncVarint;
    var max := if f.atype.Pointer? then SIZE_MAX else f.dataSize;
    var b := UpToNul(Contents(x), max);
    UpToFirstNul(Contents(x), max);
    U32Small(|b|);
    assert EncValue(sch, f, x) == Emit(true, Delimited(b));
  }

  /** A bytes array is sent behind its length. In the struct it must fit its array, whose
      first four bytes hold the size; nothing else is checked. */
  lemma BytesBytes(sch: Schema, f: Field, x: Slot)
    requires WfSchema(sch) && KnownRef(sch, f) && f.ltype.Bytes? && |Contents(x)| <= 0xFFFF_FFFF
    ensures var e := EncValue(sch, f, x);
            && (e.ok <==> f.atype.Static? ==> |Contents(x)| + 4 <= f.dataSize)
            && (e.ok ==> e.out == Delimited(Contents(x)))
  {
    hide EncVarint;
    U32Small(|Contents(x)|);
  }

  lemma FixedBytesBytes(sch: Schema, f: Field, x: Slot)
    requires WfSchema(sch) && KnownRef(sch, f) && f.ltype.FixedLengthBytes?
    requires |Contents(x)| == f.dataSize <= 0xFFFF_FFFF
    ensures EncValue(sch, f, x) == Emit(true, Delimited(Contents(x)))
  {
    hide EncVarint;
    U32Small(|Contents(x)|);
  }

  /** A submessage is sent behind its length; it fails exactly when its encoding does. */
  lemma SubmessageBytes(sch: Schema, f: Field, x: Slot)
    requires WfSchema(sch) && KnownRef(sch, f) && f.ltype.SubMessage? && f.ptr.Fields? && x.Sub?
    requires |EncMessage(sch, f.ptr.id, x).out| < 0x1_0000_0000_0000_0000
    ensures var e, m := EncValue(sch, f, x), EncMessage(sch, f.ptr.id, x);
            e.ok == m.ok && (e.ok ==> e.out == Delimited(m.out))
  {
    hide EncVarint, EncFields;
    U32Small(|EncMessage(sch, f.ptr.id, x).out|);
  }

  /** A null pointer to a string or bytes array is sent as an empty one. */
  lemma NullPointerBytes(sch: Schema, f: Field, x: Slot)
    requires WfSchema(sch) && KnownRef(sch, f) && x.Nil?
    ensures f.ltype.String? || f.ltype.Bytes? ==>
              EncTarget(sch, f, x) == Emit(true, EncVarint(8 * f.tag + 2) + [0])
    ensures !(f.ltype.String? || f.ltype.Bytes?) ==> !EncTarget(sch, f, x).ok
  {
    hide EncVarint;
  }

  // ------------------------------------------------------------------ arrays

  function Joined(parts: seq<seq<Byte>>): seq<Byte> {
    if parts == [] then [] else parts[0] + Joined(parts[1..])
  }

  lemma {:induction false} JoinedLast(parts: seq<seq<Byte>>, last: seq<Byte>)
    ensures Joined(parts + [last]) == Joined(parts) + last
    decreases |parts|
  {
    if parts == [] {
      assert [last][1..] == [] && parts + [last] == [last];
    } else {
      JoinedLast(parts[1..], last);
      assert (parts + [last])[1..] == parts[1..] + [last];
    }
  }

  /** The encodings of the first `n` items. */
  function ScalarParts(f: Field, xs: seq<Slot>, n: nat): (r: seq<seq<Byte>>)
    requires n <= |xs|
    ensures |r| == n
  {
    seq(n, k requires 0 <= k < n => EncScalar(f, xs[k]).out)
  }

  lemma {:induction false} ScalarsJoined(f: Field, xs: seq<Slot>, n: nat)
    requires n <= |xs| && forall k :: 0 <= k < n ==> EncScalar(f, xs[k]).ok
    ensures EncScalars(f, xs, n) == Emit(true, Joined(ScalarParts(f, xs, n)))
    decreases n
  {
    hide EncScalar;
    if n == 0 {
      assert ScalarParts(f, xs, 0) == [];
    } else {
      ScalarsJoined(f, xs, n - 1);
      JoinedLast(ScalarParts(f, xs, n - 1), EncScalar(f, xs[n - 1]).out);
      assert ScalarParts(f, xs, n) == ScalarParts(f, xs, n - 1) + [EncScalar(f, xs[n - 1]).out];
    }
  }

  /** An array of numbers goes out packed: one record of wire type 2 with all of them back
      to back, and no record when there are none. */
  lemma PackedBytes(sch: Schema, f: Field, xs: seq<Slot>, n: nat)
    requires WfSchema(sch) && KnownRef(sch, f) && Packable(f.ltype) && n <= |xs|
    requires f.atype.Static? ==> n <= f.arraySize
    requires forall k :: 0 <= k < n ==> EncScalar(f, xs[k]).ok
    requires |EncScalars(f, xs, n).out| < 0x1_0000_0000_0000_0000
    ensures EncArray(sch, f, xs, n) ==
            Emit(true, if n == 0 then [] else EncVarint(8 * f.tag + 2) + Delimited(Joined(ScalarParts(f, xs, n))))
  {
    hide EncScalar, EncVarint, EncScalars, ScalarParts;
    ScalarsJoined(f, xs, n);
    U32Small(|Joined(ScalarParts(f, xs, n))|);
  }

  /** The record of one entry of an array that is not packed. */
  function EntryEmit(sch: Schema, f: Field, x: Slot): Emit
    requires WfSchema(sch) && KnownRef(sch, f)
  {
    if OwnBuffer(f) then EncTarget(sch, f, x) else EncTagged(sch, f, x)
  }

  function EntryParts(sch: Schema, f: Field, xs: seq<Slot>, n: nat): (r: seq<seq<Byte>>)
    requires WfSchema(sch) && KnownRef(sch, f) && n <= |xs|
    ensures |r| == n
  {
    seq(n, k requires 0 <= k < n => EntryEmit(sch, f, xs[k]).out)
  }

  lemma {:induction false} EntriesJoined(sch: Schema, f: Field, xs: seq<Slot>, n: nat)
    requires WfSchema(sch) && KnownRef(sch, f) && n <= |xs|
    ensures var e := EncEntries(sch, f, xs, n);
            && (e.ok <==> forall k {:trigger EntryEmit(sch, f, xs[k])} :: 0 <= k < n ==> EntryEmit(sch, f, xs[k]).ok)
            && (e.ok ==> e.out == Joined(EntryParts(sch, f, xs, n)))
    decreases n
  {
    hide EncTagged, EncTarget;
    if n == 0 {
      assert EntryParts(sch, f, xs, 0) == [];
    } else {
      EntriesJoined(sch, f, xs, n - 1);
      JoinedLast(EntryParts(sch, f, xs, n - 1), EntryEmit(sch, f, xs[n - 1]).out);
      assert EntryParts(sch, f, xs, n) == EntryParts(sch, f, xs, n - 1) + [EntryEmit(sch, f, xs[n - 1]).out];
    }
  }

  /** Any other array goes out entry by entry, each behind its own key; it fails exactly
      when an entry does, or when its count is beyond the array. */
  lemma EntriesBytes(sch: Schema, f: Field, xs: seq<Slot>, n: nat)
    requires WfSchema(sch) && KnownRef(sch, f) && !Packable(f.ltype) && n <= |xs|
    ensures var e := EncArray(sch, f, xs, n);
            && (e.ok <==> (f.atype.Static? ==> n <= f.arraySize || n == 0) &&
                          forall k {:trigger EntryEmit(sch, f, xs[k])} :: 0 <= k < n ==> EntryEmit(sch, f, xs[k]).ok)
            && (e.ok ==> e.out == Joined(EntryParts(sch, f, xs, n)))
  {
    hide EntryEmit, EncEntries, EntryParts;
    EntriesJoined(sch, f, xs, n);
  }

  // ---------------------------------------------------------------- messages

  /** The emission of field `i`. */
  function FieldEmit(sch: Schema, sid: nat, x: Slot, i: nat): Emit
    requires WfSchema(sch) && sid < |sch| && i < |sch[sid]|
  {
    assert WfMessage(sch, sid) && OkField(sch, sid, i);
    if x.Sub? && DataAt(sch[sid], i) in x.members then
      EncField(sch, sch[sid][i], x.members[DataAt(sch[sid], i)], CellOf(sch[sid], x.members, i).size)
    else Emit(false, [])
  }

  function FieldParts(sch: Schema, sid: nat, x: Slot, n: nat): (r: seq<seq<Byte>>)
    requires WfSchema(sch) && sid < |sch| && n <= |sch[sid]|
    ensures |r| == n
  {
    seq(n, i requires 0 <= i < n => FieldEmit(sch, sid, x, i).out)
  }

  lemma {:induction false} FieldsJoined(sch: Schema, sid: nat, x: Slot, n: nat)
    requires WfSchema(sch) && sid < |sch| && n <= |sch[sid]|
    ensures var e := EncFields(sch, sid, x, n);
            && (e.ok <==> forall i {:trigger FieldEmit(sch, sid, x, i)} :: 0 <= i < n ==> FieldEmit(sch, sid, x, i).ok)
            && (e.ok ==> e.out == Joined(FieldParts(sch, sid, x, n)))
    decreases n
  {
    hide EncField;
    if n == 0 {
      assert FieldParts(sch, sid, x, 0) == [];
    } else {
      var last := FieldEmit(sch, sid, x, n - 1);
      FieldsJoined(sch, sid, x, n - 1);
      FieldsThen(sch, sid, x, n - 1);
      JoinedLast(FieldParts(sch, sid, x, n - 1), last.out);
      assert FieldParts(sch, sid, x, n) == FieldParts(sch, sid, x, n - 1) + [last.out];
    }
  }

  lemma FieldsThen(sch: Schema, sid: nat, x: Slot, i: nat)
    requires WfSchema(sch) && sid < |sch| && i < |sch[sid]|
    ensures EncFields(sch, sid, x, i + 1) == Then(EncFields(sch, sid, x, i), FieldEmit(sch, sid, x, i))
  {
    hide EncField;
  }

  /** A message is its fields, in the order of the table; it is encoded exactly when each
      of them is. */
  lemma MessageBytes(sch: Schema, sid: nat, x: Slot)
    requires WfSchema(sch) && sid < |sch|
    ensures var e, n := EncMessage(sch, sid, x), |sch[sid]|;
            && (e.ok <==> forall i {:trigger FieldEmit(sch, sid, x, i)} :: 0 <= i < n ==> FieldEmit(sch, sid, x, i).ok)
            && (e.ok ==> e.out == Joined(FieldParts(sch, sid, x, n)))
  {
    hide FieldEmit, EncFields;
    FieldsJoined(sch, sid, x, |sch[sid]|);
  }

  /** A null pointer in a required field, a count beyond a static array, and a static bytes
      member in use that is larger than its array are errors. */
  predicate Broken(f: Field, data: Slot, size: Slot) {
    if f.htype.Repeated? then
      && f.atype.Static? && data.Arr?
      && var n := if f.sizeOffset != 0 then Number(size) else f.arraySize;
         n > f.arraySize || (f.ltype.Bytes? && exists k {:trigger data.items[k]} ::
                               0 <= k < n && k < |data.items| && Oversize(f, data.items[k]))
    else if f.atype.Pointer? then f.htype.Required? && data.Nil?
    else
      && f.atype.Static? && f.ltype.Bytes? && Oversize(f, data)
      && match f.htype
         case Optional => if f.sizeOffset != 0 then Number(size) != 0 else Contents(data) != []
         case OneOf => Number(size) == f.tag
         case _ => true
  }

  predicate Oversize(f: Field, x: Slot) {
    |Contents(x)| + 4 > f.dataSize
  }

  lemma OversizeFails(sch: Schema, f: Field, x: Slot)
    requires WfSchema(sch) && KnownRef(sch, f) && f.ltype.Bytes? && f.atype.Static? && Oversize(f, x)
    ensures !EncTagged(sch, f, x).ok
  {
    hide EncString;
  }

  lemma BrokenArray(sch: Schema, f: Field, data: Slot, size: Slot)
    requires WfSchema(sch) && KnownRef(sch, f) && f.htype.Repeated? && Broken(f, data, size) && f.arraySize > 0
    ensures !EncField(sch, f, data, size).ok
  {
    var items, n := data.items, if f.sizeOffset != 0 then Number(size) else f.arraySize;
    if n <= f.arraySize && n <= |items| {
      var k :| 0 <= k < n && k < |items| && Oversize(f, items[k]);
      OversizeFails(sch, f, items[k]);
      hide EncTagged, EncEntries, Oversize;
      EntriesJoined(sch, f, items, n);
      assert !EntryEmit(sch, f, items[k]).ok;
    }
  }

  lemma BrokenField(sch: Schema, f: Field, data: Slot, size: Slot)
    requires WfSchema(sch) && KnownRef(sch, f) && Broken(f, data, size) && (f.htype.Repeated? ==> f.arraySize > 0)
    ensures !EncField(sch, f, data, size).ok
  {
    if f.htype.Repeated? {
      BrokenArray(sch, f, data, size);
    } else if f.atype.Static? {
      OversizeFails(sch, f, data);
    }
  }

  lemma BrokenMessage(sch: Schema, sid: nat, x: Slot, i: nat)
    requires WfSchema(sch) && sid < |sch| && i < |sch[sid]| && x.Sub? && DataAt(sch[sid], i) in x.members
    requires Broken(sch[sid][i], x.members[DataAt(sch[sid], i)], CellOf(sch[sid], x.members, i).size)
    ensures !EncMessage(sch, sid, x).ok
  {
    hide EncField, Broken, EncFields;
    assert WfMessage(sch, sid) && OkField(sch, sid, i);
    var f, data, size := sch[sid][i], x.members[DataAt(sch[sid], i)], CellOf(sch[sid], x.members, i).size;
    BrokenHasSize(f, data, size);
    BrokenField(sch, f, data, size);
    MessageBytes(sch, sid, x);
    assert !FieldEmit(sch, sid, x, i).ok;
  }

  lemma BrokenHasSize(f: Field, data: Slot, size: Slot)
    requires Broken(f, data, size) && WfCounter(f)
    ensures f.htype.Repeated? ==> f.arraySize > 0
  {
  }

  // ---------------------------------------------------------------- skipping

  /** What `pb_skip_field` takes: for wire type 0 the bytes up to the first one below 128,
      for 1 eight bytes, for 2 a length and that many bytes, for 5 four bytes. Every
      other wire type is an error, and so is an end of the input before that. */
  lemma SkipBytes(wire: nat, s: seq<Byte>)
    ensures D.SkipField(1, s) == if |s| < 8 then D.NoSkip else D.Skipped(s[8..])
    ensures D.SkipField(5, s) == if |s| < 4 then D.NoSkip else D.Skipped(s[4..])
    ensures D.SkipField(2, s) ==
            match Varint32(s)
            case Got(n, r) => if n <= |r| then D.Skipped(r[n..]) else D.NoSkip
            case Fail => D.NoSkip
    ensures wire !in {0, 1, 2, 5} ==> D.SkipField(wire, s) == D.NoSkip
  {
    hide Varint32, VarLen;
  }

  lemma SkipVarintBytes(s: seq<Byte>, k: nat)
    requires k <= |s| && forall i :: 0 <= i < k ==> s[i] >= 128
    ensures k == |s| ==> D.SkipField(0, s) == D.NoSkip
    ensures k < |s| && s[k] < 128 ==> D.SkipField(0, s) == D.Skipped(s[k + 1..])
  {
    hide Varint32, VarLen;
    VarLenMeaning(s);
    if k < |s| && s[k] < 128 {
      VarLenAt(s, k);
    }
  }

  // -------------------------------------------------------- overlong numbers

  /** A key or a length of six bytes or more is refused unless every byte from the sixth
      on is redundant. */
  lemma LongKeysAndLengths(s: seq<Byte>)
    requires 6 <= VarLen(s) <= 37
    ensures var bs := s[..VarLen(s)];
            var fine := forall k :: 5 <= k < |bs| ==> Redundant(Groups(bs[..5]) % 0x1_0000_0000, bs, k);
            && (D.DecodeTag(s).BadTag? <==> !fine)
            && (!fine ==> D.Delimited(s).NoChunk? && D.SkipField(2, s).NoSkip?)
            && (fine ==> D.Delimited(s) ==
                         var n, r := Groups(bs[..5]) % 0x1_0000_0000, s[VarLen(s)..];
                         if n <= |r| then D.Chunk(r[..n], r[n..]) else D.NoChunk)
  {
    hide Groups, Redundant, Varint32;
    LongVarintExactly(s);
  }
}
