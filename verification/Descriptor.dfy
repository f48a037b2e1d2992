/** Field descriptors (pb.h), the typed slots of a message struct, and the
    offsets at which the field iterator finds them. The constants are those of
    the pod's build: PB_FIELD_32BIT and PB_ENABLE_MALLOC on a 64-bit target. */
module Descriptor {
  import opened Bits

  const PB_SIZE_MAX: nat := 0xFFFF_FFFF
  const SIZE_MAX: nat := 0xFFFF_FFFF_FFFF_FFFF
  /** offsetof(pb_bytes_array_t, bytes) */
  const BYTES_HEADER: nat := 4
  const POINTER_SIZE: nat := 8
  const MAX_REQUIRED_FIELDS: nat := 64

  // wire types
  const WT_VARINT: nat := 0
  const WT_64BIT: nat := 1
  const WT_STRING: nat := 2
  const WT_32BIT: nat := 5

  datatype LType =
    | Bool | VarInt | UVarInt | SVarInt | Fixed32 | Fixed64
    | Bytes | String | SubMessage | Extension | FixedLengthBytes
  datatype HType = Required | Optional | Repeated | OneOf
  datatype AType = Static | Pointer | Callback

  /** What one location of a message struct, or of a heap block, holds. A size
      slot (has_, _count, which_) is a `Num`. */
  datatype Slot =
    | Undef                               // uninitialised memory
    | Num(n: int)
    | Buf(bytes: seq<Byte>)               // bytes array, string up to its terminator
    | Sub(members: map<int, Slot>)        // a struct, by member offset
    | Arr(items: seq<Slot>)               // a static array
    | Nil                                 // the null pointer; also a zeroed union
    | Block(id: nat, cells: seq<Slot>)    // the only pointer to heap block `id`

  type Store = map<int, Slot>

  datatype Ptr = NoPtr | Fields(id: nat) | Default(value: Slot)

  datatype Field = Field(tag: nat, ltype: LType, htype: HType, atype: AType, dataOffset: nat, sizeOffset: int,
                         dataSize: nat, arraySize: nat, ptr: Ptr)

  /** All message descriptors of a program; `Fields(id)` names one of them. */
  type Schema = seq<seq<Field>>

  const LAST_FIELD := Field(0, Bool, Required, Static, 0, 0, 0, 0, NoPtr)

  predicate Packable(l: LType) {
    l.Bool? || l.VarInt? || l.UVarInt? || l.SVarInt? || l.Fixed32? || l.Fixed64?
  }

  /** A heap string or bytes array: the decoder allocates it itself. */
  predicate OwnBuffer(f: Field) {
    f.atype.Pointer? && (f.ltype.String? || f.ltype.Bytes?)
  }

  /** The C array: the fields, then the terminator. */
  function FieldAt(fs: seq<Field>, i: nat): Field {
    if i < |fs| then fs[i] else LAST_FIELD
  }

  // ----------------------------------------------------------------- layout

  /** Field `i` shares the storage of the field before it. */
  predicate InUnion(fs: seq<Field>, i: nat) {
    0 < i < |fs| && fs[i - 1].htype.OneOf? && fs[i].htype.OneOf? && fs[i].dataOffset == PB_SIZE_MAX
  }

  /** Bytes a field takes in the struct. */
  function Extent(f: Field): nat {
    if f.atype.Static? && f.htype.Repeated? then f.dataSize * f.arraySize
    else if f.atype.Pointer? then POINTER_SIZE
    else f.dataSize
  }

  function DataAt(fs: seq<Field>, i: nat): int {
    if i == 0 then FieldAt(fs, 0).dataOffset
    else if InUnion(fs, i) then DataAt(fs, i - 1)
    else DataAt(fs, i - 1) + Extent(FieldAt(fs, i - 1)) + FieldAt(fs, i).dataOffset
  }

  function SizeAt(fs: seq<Field>, i: nat): int {
    if InUnion(fs, i) then SizeAt(fs, i - 1) else DataAt(fs, i) + FieldAt(fs, i).sizeOffset
  }

  /** Number of required fields before position `i`. */
  function RequiredBefore(fs: seq<Field>, i: nat): (n: nat)
    requires i <= |fs|
    ensures n <= i
  {
    if i == 0 then 0 else RequiredBefore(fs, i - 1) + (if fs[i - 1].htype.Required? then 1 else 0)
  }

  /** First member of the union field `i` belongs to, or `i` itself. */
  function UnionHead(fs: seq<Field>, i: nat): (h: nat)
    ensures h <= i && !InUnion(fs, h)
  {
    if InUnion(fs, i) then UnionHead(fs, i - 1) else i
  }

  /** Lowest address field `i` uses. */
  function LowKey(fs: seq<Field>, i: nat): int {
    if SizeAt(fs, i) < DataAt(fs, i) then SizeAt(fs, i) else DataAt(fs, i)
  }

  /** What the macros of pb.h guarantee about one table entry. */
  predicate WfField(messages: nat, sid: nat, f: Field) {
    && 1 <= f.tag < 0x2000_0000
    && !f.ltype.Extension? && !f.atype.Callback?
    && 0 < f.dataSize <= PB_SIZE_MAX
    && f.arraySize <= PB_SIZE_MAX
    && (f.ltype.SubMessage? <==> f.ptr.Fields?)
    && (f.ptr.Default? ==> f.ptr.value.Num? || f.ptr.value.Buf?)
    && (f.ptr.Fields? ==> f.ptr.id < messages && (f.atype.Static? ==> f.ptr.id < sid))
    && WfWidth(f)
    && WfCounter(f)
  }

  predicate WfWidth(f: Field) {
    match f.ltype
    case Bool => f.dataSize == 1
    case VarInt => f.dataSize in {1, 2, 4, 8}
    case UVarInt => f.dataSize in {1, 2, 4, 8}
    case SVarInt => f.dataSize in {1, 2, 4, 8}
    case Fixed32 => f.dataSize == 4
    case Fixed64 => f.dataSize == 8
    case _ => true
  }

  /** Where a has_, _count or which_ member lies: before the data, or nowhere. */
  predicate WfCounter(f: Field) {
    match f.htype
    case Required => f.sizeOffset == 0
    case Optional => f.sizeOffset <= 0 && (f.atype.Pointer? ==> f.sizeOffset == 0)
    case Repeated =>
      f.sizeOffset <= 0 && (f.atype.Pointer? ==> f.sizeOffset < 0) && (f.atype.Static? ==> f.arraySize > 0)
    case OneOf => f.sizeOffset < 0
  }

  predicate TagsDiffer(fs: seq<Field>, i: nat, j: nat)
    requires i < |fs| && j < |fs|
  {
    fs[i].tag != fs[j].tag
  }

  predicate CounterBesideData(fs: seq<Field>, i: nat)
    requires i < |fs|
  {
    SizeAt(fs, i) == DataAt(fs, i) + fs[i].sizeOffset
  }

  predicate Follows(fs: seq<Field>, i: nat, k: nat)
    requires i < |fs| && k < |fs|
  {
    DataAt(fs, k) + Extent(fs[k]) <= LowKey(fs, i)
  }

  /** Tags are unique, the members of a union share their which_ member, and a
      field starts after the field, or after every member of the union, before it. */
  predicate WfTable(fs: seq<Field>) {
    && (forall i, j {:trigger TagsDiffer(fs, i, j)} :: 0 <= i < j < |fs| ==> TagsDiffer(fs, i, j))
    && (forall i {:trigger CounterBesideData(fs, i)} :: 0 <= i < |fs| ==> CounterBesideData(fs, i))
    && (forall i, k {:trigger Follows(fs, i, k)} ::
          0 < i < |fs| && !InUnion(fs, i) && UnionHead(fs, i - 1) <= k < i ==> Follows(fs, i, k))
  }

  predicate OkField(sch: Schema, sid: nat, i: nat)
    requires sid < |sch| && i < |sch[sid]|
  {
    WfField(|sch|, sid, sch[sid][i])
  }

  predicate WfMessage(sch: Schema, sid: nat)
    requires sid < |sch|
  {
    WfTable(sch[sid]) && forall i {:trigger OkField(sch, sid, i)} :: 0 <= i < |sch[sid]| ==> OkField(sch, sid, i)
  }

  predicate WfSchema(sch: Schema) {
    forall sid {:trigger WfMessage(sch, sid)} :: 0 <= sid < |sch| ==> WfMessage(sch, sid)
  }

  /** Every field has a size, so its end lies beyond its start. */
  lemma ExtentPositive(messages: nat, sid: nat, f: Field)
    requires WfField(messages, sid, f)
    ensures Extent(f) > 0
  {
    if f.atype.Static? && f.htype.Repeated? {
      assert f.dataSize * f.arraySize >= f.dataSize;
    }
  }

  /** The counter of a field does not lie beyond its data, and the data is not empty. */
  predicate Placed(fs: seq<Field>, i: nat)
    requires i < |fs|
  {
    SizeAt(fs, i) <= DataAt(fs, i) && Extent(fs[i]) > 0
  }

  lemma AllPlaced(sch: Schema, sid: nat, i: nat)
    requires sid < |sch| && WfMessage(sch, sid) && i < |sch[sid]|
    ensures Placed(sch[sid], i)
    ensures SizeAt(sch[sid], i) == DataAt(sch[sid], i) <==> sch[sid][i].sizeOffset == 0
  {
    var fs := sch[sid];
    assert CounterBesideData(fs, i) && OkField(sch, sid, i);
    ExtentPositive(|sch|, sid, fs[i]);
  }

  lemma NextHigher(sch: Schema, sid: nat, i: nat, j: nat)
    requires sid < |sch| && WfMessage(sch, sid) && i < j < |sch[sid]|
    requires !InUnion(sch[sid], j) && UnionHead(sch[sid], i) == UnionHead(sch[sid], j - 1)
    ensures DataAt(sch[sid], i) < LowKey(sch[sid], j)
  {
    assert Follows(sch[sid], j, i);
    AllPlaced(sch, sid, i);
  }

  lemma SharesStart(fs: seq<Field>, j: nat)
    requires InUnion(fs, j)
    ensures LowKey(fs, j) == LowKey(fs, j - 1) && UnionHead(fs, j) == UnionHead(fs, j - 1) <= j - 1
  {
  }

  /** The local packing condition makes all storage disjoint: the addresses of a
      field lie below those of any later field outside its union. */
  lemma {:induction false} LaterIsHigher(sch: Schema, sid: nat, i: nat, j: nat)
    requires sid < |sch| && WfMessage(sch, sid) && i < j < |sch[sid]|
    requires UnionHead(sch[sid], i) != UnionHead(sch[sid], j)
    ensures DataAt(sch[sid], i) < LowKey(sch[sid], j)
    decreases j
  {
    if InUnion(sch[sid], j) {
      SharesStart(sch[sid], j);
      LaterIsHigher(sch, sid, i, j - 1);
    } else {
      if UnionHead(sch[sid], i) != UnionHead(sch[sid], j - 1) {
        LaterIsHigher(sch, sid, i, j - 1);
      }
      NextHigher(sch, sid, if UnionHead(sch[sid], i) != UnionHead(sch[sid], j - 1) then j - 1 else i, j);
    }
  }

  /** Fields outside one another's union have no address in common. */
  lemma DisjointStorage(sch: Schema, sid: nat, i: nat, j: nat)
    requires sid < |sch| && WfMessage(sch, sid) && i < |sch[sid]| && j < |sch[sid]|
    requires UnionHead(sch[sid], i) != UnionHead(sch[sid], j)
    ensures var fs := sch[sid]; {DataAt(fs, i), SizeAt(fs, i)} !! {DataAt(fs, j), SizeAt(fs, j)}
  {
    AllPlaced(sch, sid, i);
    AllPlaced(sch, sid, j);
    LaterIsHigher(sch, sid, if i < j then i else j, if i < j then j else i);
  }

  /** Members of one union have one address for the data and one for which_. */
  lemma {:induction false} SameUnion(fs: seq<Field>, i: nat)
    requires i < |fs|
    ensures DataAt(fs, i) == DataAt(fs, UnionHead(fs, i)) && SizeAt(fs, i) == SizeAt(fs, UnionHead(fs, i))
    ensures UnionHead(fs, i) < i ==> fs[i].htype.OneOf? && fs[UnionHead(fs, i)].htype.OneOf?
  {
    if !InUnion(fs, i) {
    } else {
      SameUnion(fs, i - 1);
    }
  }

  lemma OneOfHead(fs: seq<Field>, i: nat, j: nat)
    requires i < |fs| && j < |fs| && i != j && UnionHead(fs, i) == UnionHead(fs, j)
    ensures fs[i].htype.OneOf? && fs[j].htype.OneOf?
  {
    SameUnion(fs, i);
    SameUnion(fs, j);
  }

  lemma SameUnionData(fs: seq<Field>, i: nat, j: nat)
    requires i < |fs| && j < |fs| && UnionHead(fs, i) == UnionHead(fs, j)
    ensures DataAt(fs, i) == DataAt(fs, j) && SizeAt(fs, i) == SizeAt(fs, j)
  {
    SameUnion(fs, i);
    SameUnion(fs, j);
  }

  // ------------------------------------------------------------------ slots

  function Members(s: Slot): Store {
    if s.Sub? then s.members else map[]
  }

  function Items(s: Slot): seq<Slot> {
    if s.Arr? then s.items else if s.Block? then s.cells else []
  }

  function Number(s: Slot): int {
    if s.Num? then s.n else 0
  }

  function ItemAt(items: seq<Slot>, k: int): Slot {
    if 0 <= k < |items| then items[k] else Undef
  }

  function SetItem(items: seq<Slot>, k: int, x: Slot): (r: seq<Slot>)
    ensures |r| == |items|
  {
    if 0 <= k < |items| then items[k := x] else items
  }

  function Look(m: Store, k: int): Slot {
    if k in m then m[k] else Undef
  }

  /** What the iterator points at: *pData and, when the field has one, *pSize. */
  datatype Cell = Cell(data: Slot, size: Slot)

  function CellOf(fs: seq<Field>, m: Store, i: nat): Cell {
    Cell(Look(m, DataAt(fs, i)), if FieldAt(fs, i).sizeOffset != 0 then Look(m, SizeAt(fs, i)) else Undef)
  }

  function PutCell(fs: seq<Field>, m: Store, i: nat, c: Cell): Store {
    var m1 := m[DataAt(fs, i) := c.data];
    if FieldAt(fs, i).sizeOffset != 0 then m1[SizeAt(fs, i) := c.size] else m1
  }

  function NormalCell(f: Field, c: Cell): Cell {
    if f.sizeOffset != 0 then c else c.(size := Undef)
  }

  /** Writing one field: it reads back, and no field outside its union changes. */
  lemma PutThenGet(sch: Schema, sid: nat, m: Store, i: nat, c: Cell)
    requires sid < |sch| && WfMessage(sch, sid) && i < |sch[sid]|
    ensures CellOf(sch[sid], PutCell(sch[sid], m, i, c), i) == NormalCell(sch[sid][i], c)
  {
    AllPlaced(sch, sid, i);
  }

  lemma PutElsewhere(sch: Schema, sid: nat, m: Store, i: nat, c: Cell, j: nat)
    requires sid < |sch| && WfMessage(sch, sid) && i < |sch[sid]| && j < |sch[sid]|
    requires UnionHead(sch[sid], i) != UnionHead(sch[sid], j)
    ensures CellOf(sch[sid], PutCell(sch[sid], m, i, c), j) == CellOf(sch[sid], m, j)
  {
    DisjointStorage(sch, sid, i, j);
    var fs := sch[sid];
    PutFrame(m, DataAt(fs, i), SizeAt(fs, i), c, DataAt(fs, j));
    PutFrame(m, DataAt(fs, i), SizeAt(fs, i), c, SizeAt(fs, j));
  }

  lemma PutFrame(m: Store, d: int, s: int, c: Cell, k: int)
    requires k != d && k != s
    ensures Look(m[d := c.data], k) == Look(m[d := c.data][s := c.size], k) == Look(m, k)
  {
  }

  /** Members of one union see the same cell. */
  lemma UnionCell(sch: Schema, sid: nat, m: Store, i: nat, j: nat)
    requires sid < |sch| && WfMessage(sch, sid) && i < |sch[sid]| && j < |sch[sid]|
    requires UnionHead(sch[sid], i) == UnionHead(sch[sid], j)
    ensures CellOf(sch[sid], m, i) == CellOf(sch[sid], m, j)
  {
    var fs := sch[sid];
    SameUnion(fs, i);
    SameUnion(fs, j);
    assert CounterBesideData(fs, i) && CounterBesideData(fs, j);
  }
}
