/** The round trip through the methods: pb_encode into a buffer, pb_decode from it. */
module EndToEnd {
  import opened Bits
  import opened Descriptor
  import A = Allocator
  import opened EncodeSpec
  import opened StaticOnly
  import opened Structs
  import opened Received
  import opened Releaser
  import RoundTrip
  import Encoder
  import Decoder

  /** A valid struct written to a buffer with room for it is read back, given the
      memory its pointers need, with nothing left over; and equal unless a default or
      a null string hides a value. Without pointers nothing is allocated. */
  method EncodeThenDecode(buffer: array<Byte>, memory: Memory, sch: Schema, sid: nat, x: Slot, dest: Decoder.Struct)
    returns (ok: bool, left: nat)
    requires WfSchema(sch) && sid < |sch| && ValidStruct(sch, sid, x) && Shaped(sch, sid, dest.m)
    requires StaticMessage(sch, sid) || A.Generous(memory.heap)
    requires |EncMessage(sch, sid, x).out| <= buffer.Length < TWO64
    modifies buffer, memory, dest
    ensures ok && left == 0 && ReceivedStruct(sch, sid, x, Sub(dest.m))
    ensures SameStruct(sch, sid, x, Sub(dest.m)) <==> KeptStruct(sch, sid, x)
    ensures StaticMessage(sch, sid) ==> memory.heap == old(memory.heap)
  {
    if StaticMessage(sch, sid) {
      RoundTrip.EncodeDecodeStatic(sch, sid, x, dest.m, memory.heap);
    } else {
      RoundTrip.EncodeDecode(sch, sid, x, dest.m, memory.heap);
    }
    var written;
    ok, written := Encoder.EncodeIntoBuffer(buffer, buffer.Length, sch, sid, x);
    ok, left := Decoder.DecodeFromBuffer(buffer, written, memory, sch, sid, dest);
  }
}
