/** pb_encode.c as functions of the struct: the bytes each encoder emits on a
    stream without a limit, and whether it succeeds. */
module EncodeSpec {
  import opened Bits
  import opened Varint
  import opened Descriptor
  import opened Scalars
  import opened Release

  /** Emitting `a` and then, unless that failed, `b`. */
  function Then(a: Emit, b: Emit): Emit {
    if a.ok then Emit(b.ok, a.out + b.out) else a
  }

  function WireType(l: LType): nat {
    match l
    case Fixed32 => WT_32BIT
    case Fixed64 => WT_64BIT
    case Bytes => WT_STRING
    case String => WT_STRING
    case SubMessage => WT_STRING
    case FixedLengthBytes => WT_STRING
    case _ => WT_VARINT
  }

  /** `pb_encode_tag`. */
  function EncKey(wire: nat, tag: nat): seq<Byte> {
    EncVarint(8 * tag + wire)
  }

  /** `pb_encode_string`: the length goes out as a uint64_t. */
  function EncString(b: seq<Byte>): seq<Byte> {
    EncVarint(U64(|b|)) + b
  }

  function Contents(x: Slot): seq<Byte> {
    if x.Buf? then x.bytes else []
  }

  /** `strnlen`: the bytes before the first NUL, at most `max` of them. */
  function UpToNul(b: seq<Byte>, max: nat): (r: seq<Byte>)
    ensures |r| <= max && r <= b
  {
    if max == 0 || b == [] || b[0] == 0 then [] else [b[0]] + UpToNul(b[1..], max - 1)
  }

  /** The entry of PB_ENCODERS for the field, applied to the item `x`; `Nil` stands
      for a null pointer, which only strings and bytes tolerate. */
  function EncValue(sch: Schema, f: Field, x: Slot): Emit
    requires WfSchema(sch) && KnownRef(sch, f)
    decreases x, 3
  {
    if Packable(f.ltype) then (if x.Nil? then Emit(false, []) else EncScalar(f, x))
    else if f.ltype.Bytes? then
      (if |Contents(x)| > PB_SIZE_MAX || (f.atype.Static? && BYTES_HEADER + |Contents(x)| > f.dataSize)
       then Emit(false, [])
       else Emit(true, EncString(Contents(x))))
    else if f.ltype.String? then
      Emit(true, EncString(UpToNul(Contents(x), if f.atype.Pointer? then SIZE_MAX else f.dataSize)))
    else if f.ltype.FixedLengthBytes? then
      (if |Contents(x)| != f.dataSize then Emit(false, []) else Emit(true, EncString(Contents(x))))
    else if f.ltype.SubMessage? && f.ptr.Fields? && x.Sub? then
      var body := EncFields(sch, f.ptr.id, x, |sch[f.ptr.id]|);
      if body.ok then Emit(true, EncString(body.out)) else Emit(false, [])
    else Emit(false, [])
  }

  /** `pb_encode_tag_for_field` and the value. */
  function EncTagged(sch: Schema, f: Field, x: Slot): Emit
    requires WfSchema(sch) && KnownRef(sch, f)
    decreases x, 4
  {
    Then(Emit(true, EncKey(WireType(f.ltype), f.tag)), EncValue(sch, f, x))
  }

  /** The same for an item behind a pointer: a null pointer is an empty string. */
  function EncTarget(sch: Schema, f: Field, x: Slot): Emit
    requires WfSchema(sch) && KnownRef(sch, f)
    decreases x, 4
  {
    if x.Block? && x.cells != [] then EncTagged(sch, f, x.cells[0])
    else
      Then(Emit(true, EncKey(WireType(f.ltype), f.tag)),
           if f.ltype.String? || f.ltype.Bytes? then Emit(true, [0]) else Emit(false, []))
  }

  /** The first `n` items of an array, back to back. */
  function EncScalars(f: Field, xs: seq<Slot>, n: nat): Emit {
    if n == 0 then Emit(true, [])
    else Then(EncScalars(f, xs, n - 1), if n <= |xs| then EncScalar(f, xs[n - 1]) else Emit(false, []))
  }

  /** The first `n` items of an array, each with its key. The entries of a heap
      array of strings or bytes are pointers themselves. */
  function EncEntries(sch: Schema, f: Field, xs: seq<Slot>, n: nat): Emit
    requires WfSchema(sch) && KnownRef(sch, f)
    decreases xs, 0, n
  {
    if n == 0 then Emit(true, [])
    else
      Then(EncEntries(sch, f, xs, n - 1),
           if n > |xs| then Emit(false, [])
           else if f.atype.Pointer? && (f.ltype.String? || f.ltype.Bytes?) then EncTarget(sch, f, xs[n - 1])
           else EncTagged(sch, f, xs[n - 1]))
  }

  /** A packed block; its size is found by a pass of its own, which fails before
      the size is written. */
  function EncPacked(f: Field, xs: seq<Slot>, n: nat): Emit {
    var block := EncScalars(f, xs, n);
    Then(Emit(true, EncKey(WT_STRING, f.tag)), if block.ok then Emit(true, EncString(block.out)) else Emit(false, []))
  }

  /** `encode_array`: packable types go out as one block. A count beyond the array
      is not followed. */
  function EncArray(sch: Schema, f: Field, xs: seq<Slot>, n: int): Emit
    requires WfSchema(sch) && KnownRef(sch, f)
    decreases xs, 1
  {
    if n <= 0 then Emit(true, [])
    else if (f.atype.Static? && n > f.arraySize) || n > |xs| then Emit(false, [])
    else if Packable(f.ltype) then EncPacked(f, xs, n)
    else EncEntries(sch, f, xs, n)
  }

  /** How many items of an array are encoded. */
  function ArrayCount(f: Field, size: Slot): int {
    if f.sizeOffset != 0 then Number(size) else f.arraySize
  }

  /** `pb_check_proto3_default_value`. */
  predicate IsDefault(sch: Schema, f: Field, data: Slot, size: Slot)
    requires WfSchema(sch) && KnownRef(sch, f)
    decreases data, 1
  {
    match f.htype
    case Required => false
    case Repeated => f.sizeOffset != 0 && Number(size) == 0
    case OneOf => Number(size) == 0
    case Optional =>
      if f.sizeOffset != 0 then Number(size) == 0
      else if f.atype.Pointer? then data.Nil?
      else match f.ltype
        case Bytes => Contents(data) == []
        case String => Contents(data) == [] || Contents(data)[0] == 0
        case FixedLengthBytes => f.dataSize == 0
        case SubMessage => f.ptr.Fields? && AllDefault(sch, f.ptr.id, data, |sch[f.ptr.id]|)
        case _ => Number(data) == 0
  }

  predicate AllDefault(sch: Schema, sid: nat, src: Slot, n: nat)
    requires WfSchema(sch) && sid < |sch| && n <= |sch[sid]|
    decreases src, 0, n
  {
    if n == 0 then true
    else
      assert WfMessage(sch, sid) && OkField(sch, sid, n - 1);
      && AllDefault(sch, sid, src, n - 1)
      && (src.Sub? && DataAt(sch[sid], n - 1) in src.members ==>
            IsDefault(sch, sch[sid][n - 1], src.members[DataAt(sch[sid], n - 1)],
                      CellOf(sch[sid], src.members, n - 1).size))
  }

  /** Whether an optional or oneof field goes out. */
  predicate Present(sch: Schema, f: Field, data: Slot, size: Slot)
    requires WfSchema(sch) && KnownRef(sch, f)
  {
    match f.htype
    case Optional =>
      if f.sizeOffset != 0 then Number(size) != 0
      else if f.atype.Pointer? then !data.Nil?
      else !IsDefault(sch, f, data, size)
    case OneOf => Number(size) == f.tag
    case _ => true
  }

  /** `encode_basic_field`. */
  function EncField(sch: Schema, f: Field, data: Slot, size: Slot): Emit
    requires WfSchema(sch) && KnownRef(sch, f)
    decreases data, 5
  {
    if f.htype.Repeated? then
      match data
      case Arr(items) => EncArray(sch, f, items, ArrayCount(f, size))
      case Block(_, cells) => EncArray(sch, f, cells, ArrayCount(f, size))
      case _ => Emit(ArrayCount(f, size) <= 0, [])
    else if !Present(sch, f, data, size) then Emit(true, [])
    else if f.atype.Static? then EncTagged(sch, f, data)
    else if f.htype.Required? && data.Nil? then Emit(false, [])
    else EncTarget(sch, f, data)
  }

  /** The fields before position `n`, in table order. */
  function EncFields(sch: Schema, sid: nat, src: Slot, n: nat): Emit
    requires WfSchema(sch) && sid < |sch| && n <= |sch[sid]|
    decreases src, 0, n
  {
    if n == 0 then Emit(true, [])
    else
      assert WfMessage(sch, sid) && OkField(sch, sid, n - 1);
      Then(EncFields(sch, sid, src, n - 1),
           if src.Sub? && DataAt(sch[sid], n - 1) in src.members then
             EncField(sch, sch[sid][n - 1], src.members[DataAt(sch[sid], n - 1)],
                      CellOf(sch[sid], src.members, n - 1).size)
           else Emit(false, []))
  }

  /** `pb_encode`. */
  function EncMessage(sch: Schema, sid: nat, src: Slot): Emit
    requires WfSchema(sch) && sid < |sch|
  {
    EncFields(sch, sid, src, |sch[sid]|)
  }
}
