/** What an encoder of a newer schema sends, a decoder of an older one steps over. */
module Skipping {
  import opened Bits
  import opened Varint
  import opened Descriptor
  import opened Scalars
  import opened FieldIterator
  import opened Release
  import opened EncodeSpec
  import D = DecodeSpec
  import opened Merge
  import opened Arrays

  lemma VarintSkipped(v: nat, t: seq<Byte>)
    ensures D.SkipField(WT_VARINT, EncVarint(v) + t) == D.Skipped(t)
  {
    EncVarintShape(v);
    WholeVarint(EncVarint(v), t);
  }

  lemma ScalarSkipped(f: Field, x: Slot, t: seq<Byte>)
    requires Packable(f.ltype) && EncScalar(f, x).ok
    ensures D.SkipField(WireType(f.ltype), EncScalar(f, x).out + t) == D.Skipped(t)
  {
    match f.ltype
    case Bool => VarintSkipped(if Number(x) != 0 then 1 else 0, t);
    case SVarInt => VarintSkipped(ZigZag(Number(x)), t);
    case Fixed32 => assert (EncFixed32(U32(Number(x))) + t)[4..] == t;
    case Fixed64 => assert (EncFixed64(U64(Number(x))) + t)[8..] == t;
    case _ => VarintSkipped(U64(Number(x)), t);
  }

  lemma StringSkipped(b: seq<Byte>, t: seq<Byte>)
    requires |b| < TWO32
    ensures D.SkipField(WT_STRING, EncString(b) + t) == D.Skipped(t)
  {
    ChunkRoundTrip(b, t);
  }

  /** Skipping by wire type alone takes exactly the bytes of an encoded value, of
      whatever type. */
  lemma EncodedIsSkipped(sch: Schema, f: Field, x: Slot, t: seq<Byte>)
    requires WfSchema(sch) && KnownRef(sch, f) && EncValue(sch, f, x).ok && |EncValue(sch, f, x).out| < TWO32
    ensures D.SkipField(WireType(f.ltype), EncValue(sch, f, x).out + t) == D.Skipped(t)
  {
    if Packable(f.ltype) {
      ScalarSkipped(f, x, t);
    } else {
      var b := Payload(sch, f, x);
      assert EncValue(sch, f, x).out == EncString(b);
      StringSkipped(b, t);
    }
  }

  /** The bytes behind the length of a length-delimited value. */
  function Payload(sch: Schema, f: Field, x: Slot): seq<Byte>
    requires WfSchema(sch) && KnownRef(sch, f)
  {
    if f.ltype.String? then UpToNul(Contents(x), if f.atype.Pointer? then SIZE_MAX else f.dataSize)
    else if f.ltype.SubMessage? && f.ptr.Fields? then EncMessage(sch, f.ptr.id, x).out
    else Contents(x)
  }

  /** A field that only the sender knows, at any field boundary, is invisible to the
      receiver. */
  lemma NewerFieldIsInvisible(sch: Schema, sid: nat, f: Field, x: Slot, before: seq<Byte>, after: seq<Byte>, run: D.Run)
    requires WfSchema(sch) && sid < |sch| && KnownRef(sch, f) && 1 <= f.tag < 0x2000_0000 && !Known(sch[sid], f.tag)
    requires EncTagged(sch, f, x).ok && |EncValue(sch, f, x).out| < TWO32
    requires ToTheEnd(D.Records(sch, sid, before, run))
    ensures D.Records(sch, sid, before + (EncTagged(sch, f, x).out + after), run) ==
            D.Records(sch, sid, before + after, run)
  {
    var value := EncValue(sch, f, x).out;
    var rec := EncTagged(sch, f, x).out;
    KeyRoundTrip(WireType(f.ltype), f.tag, value);
    EncodedIsSkipped(sch, f, x, []);
    assert value + [] == value;
    UnknownIsInvisible(sch, sid, before, rec, after, run);
  }
}
