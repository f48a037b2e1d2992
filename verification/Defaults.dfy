/** memset and pb_message_set_to_defaults: the zeroed struct of a message and the
    default values of its fields. */
module Defaults {
  import opened Bits
  import opened Descriptor

  function Zeros(n: nat): (r: seq<Byte>)
    ensures |r| == n
  {
    seq(n, _ => 0)
  }

  /** One zeroed item of a static field. */
  function ZeroItem(sch: Schema, sid: nat, i: nat): Slot
    requires WfSchema(sch) && sid < |sch| && i < |sch[sid]|
    requires sch[sid][i].atype.Static?
    decreases sid, 0, 0
  {
    var f := sch[sid][i];
    assert WfMessage(sch, sid) && OkField(sch, sid, i);
    match f.ltype
    case Bytes => Buf([])
    case String => Buf([])
    case FixedLengthBytes => Buf(Zeros(f.dataSize))
    case SubMessage => Sub(ZeroStruct(sch, f.ptr.id, |sch[f.ptr.id]|))
    case _ => Num(0)
  }

  function Repeat(x: Slot, n: nat): (r: seq<Slot>)
    ensures |r| == n
    ensures forall k :: 0 <= k < n ==> r[k] == x
  {
    seq(n, _ => x)
  }

  function ZeroCell(sch: Schema, sid: nat, i: nat): Cell
    requires WfSchema(sch) && sid < |sch| && i < |sch[sid]|
    decreases sid, 1, 0
  {
    var f := sch[sid][i];
    if f.atype.Static? && !f.htype.OneOf? then
      Cell(if f.htype.Repeated? then Arr(Repeat(ZeroItem(sch, sid, i), f.arraySize)) else ZeroItem(sch, sid, i), Num(0))
    else
      Cell(Nil, Num(0))
  }

  /** The first `n` fields of a struct in zeroed memory. */
  function ZeroStruct(sch: Schema, sid: nat, n: nat): Store
    requires WfSchema(sch) && sid < |sch| && n <= |sch[sid]|
    decreases sid, 2, n
  {
    if n == 0 then map[] else PutCell(sch[sid], ZeroStruct(sch, sid, n - 1), n - 1, ZeroCell(sch, sid, n - 1))
  }

  /** `pb_field_set_to_default`: the cell of field `i` after it. */
  function DefaultCell(sch: Schema, sid: nat, i: nat, c: Cell): Cell
    requires WfSchema(sch) && sid < |sch| && i < |sch[sid]|
    decreases sid, 0, 0
  {
    var f := sch[sid][i];
    if f.atype.Pointer? then
      Cell(Nil, if f.htype.Repeated? || f.htype.OneOf? then Num(0) else c.size)
    else if f.atype.Callback? then c
    else if f.htype.Repeated? || f.htype.OneOf? then Cell(c.data, Num(0))
    else Cell(DefaultData(sch, sid, i, c.data), if f.htype.Optional? && f.sizeOffset != 0 then Num(0) else c.size)
  }

  function DefaultData(sch: Schema, sid: nat, i: nat, data: Slot): Slot
    requires WfSchema(sch) && sid < |sch| && i < |sch[sid]| && sch[sid][i].atype.Static?
    decreases sid, 0, 0, 0
  {
    var f := sch[sid][i];
    assert WfMessage(sch, sid) && OkField(sch, sid, i);
    match f.ptr
    case Fields(id) => Sub(SetDefaults(sch, id, Members(data), |sch[id]|))
    case Default(v) => v
    case NoPtr => ZeroItem(sch, sid, i)
  }

  /** `pb_message_set_to_defaults`, after its first `n` fields. */
  function SetDefaults(sch: Schema, sid: nat, m: Store, n: nat): Store
    requires WfSchema(sch) && sid < |sch| && n <= |sch[sid]|
    decreases sid, 1, n
  {
    if n == 0 then m
    else
      var m1 := SetDefaults(sch, sid, m, n - 1);
      PutCell(sch[sid], m1, n - 1, DefaultCell(sch, sid, n - 1, CellOf(sch[sid], m1, n - 1)))
  }

  function Initialised(sch: Schema, sid: nat, m: Store): Store
    requires WfSchema(sch) && sid < |sch|
  {
    SetDefaults(sch, sid, m, |sch[sid]|)
  }

  /** A struct in memory that was zeroed and then given its default values. */
  function FreshStruct(sch: Schema, sid: nat): Slot
    requires WfSchema(sch) && sid < |sch|
  {
    Sub(Initialised(sch, sid, ZeroStruct(sch, sid, |sch[sid]|)))
  }
}
