/** What it means for a struct to be laid out, initialised, valid for encoding, and
    equal to another one. */
module Structs {
  import opened Bits
  import opened Descriptor
  import opened Scalars
  import opened Defaults
  import opened EncodeSpec

  // ----------------------------------------------------------------- layout

  predicate ShapedItem(sch: Schema, sid: nat, i: nat, x: Slot)
    requires WfSchema(sch) && sid < |sch| && i < |sch[sid]|
    decreases sid, 0
  {
    assert WfMessage(sch, sid) && OkField(sch, sid, i);
    var f := sch[sid][i];
    f.atype.Static? && f.ltype.SubMessage? ==> x.Sub? && Shaped(sch, f.ptr.id, x.members)
  }

  predicate ShapedItems(sch: Schema, sid: nat, i: nat, xs: seq<Slot>)
    requires WfSchema(sch) && sid < |sch| && i < |sch[sid]|
    decreases sid, 1
  {
    |xs| == sch[sid][i].arraySize && forall k :: 0 <= k < |xs| ==> ShapedItem(sch, sid, i, xs[k])
  }

  /** The storage of a field: a static array has all its entries, a static submessage
      is a struct. */
  predicate ShapedCell(sch: Schema, sid: nat, i: nat, c: Cell)
    requires WfSchema(sch) && sid < |sch| && i < |sch[sid]|
    decreases sid, 2
  {
    if sch[sid][i].atype.Pointer? then true
    else match sch[sid][i].htype
      case Repeated => c.data.Arr? && ShapedItems(sch, sid, i, c.data.items)
      case OneOf => true
      case _ => ShapedItem(sch, sid, i, c.data)
  }

  predicate Shaped(sch: Schema, sid: nat, m: Store)
    requires WfSchema(sch) && sid < |sch|
    decreases sid, 3
  {
    forall i {:trigger ShapedCell(sch, sid, i, CellOf(sch[sid], m, i))} ::
      0 <= i < |sch[sid]| ==> ShapedCell(sch, sid, i, CellOf(sch[sid], m, i))
  }

  // --------------------------------------------------------------- defaults

  predicate DefaultItem(sch: Schema, sid: nat, i: nat, x: Slot)
    requires WfSchema(sch) && sid < |sch| && i < |sch[sid]| && sch[sid][i].atype.Static?
    decreases sid, 0
  {
    assert WfMessage(sch, sid) && OkField(sch, sid, i);
    if sch[sid][i].ltype.SubMessage? then x.Sub? && AtDefault(sch, sch[sid][i].ptr.id, x.members)
    else if sch[sid][i].ptr.Default? then x == sch[sid][i].ptr.value
    else x == ZeroItem(sch, sid, i)
  }

  predicate CellAtDefault(sch: Schema, sid: nat, i: nat, c: Cell)
    requires WfSchema(sch) && sid < |sch| && i < |sch[sid]|
    decreases sid, 2
  {
    var f := sch[sid][i];
    assert WfMessage(sch, sid) && OkField(sch, sid, i);
    if f.atype.Pointer? then c.data.Nil? && (f.htype.Repeated? || f.htype.OneOf? ==> c.size == Num(0))
    else match f.htype
      case Required => DefaultItem(sch, sid, i, c.data)
      case Optional => DefaultItem(sch, sid, i, c.data) && (f.sizeOffset != 0 ==> c.size == Num(0))
      case Repeated => ShapedCell(sch, sid, i, c) && (f.sizeOffset != 0 ==> c.size == Num(0))
      case OneOf => c.size == Num(0)
  }

  predicate AtDefault(sch: Schema, sid: nat, m: Store)
    requires WfSchema(sch) && sid < |sch|
    decreases sid, 3
  {
    forall i {:trigger CellAtDefault(sch, sid, i, CellOf(sch[sid], m, i))} ::
      0 <= i < |sch[sid]| ==> CellAtDefault(sch, sid, i, CellOf(sch[sid], m, i))
  }

  /** `SetDefaults` reaches field `i` or has not yet. */
  lemma {:induction false} DefaultsProgress(sch: Schema, sid: nat, m: Store, n: nat, i: nat)
    requires WfSchema(sch) && sid < |sch| && n <= |sch[sid]| && i < |sch[sid]|
    requires Shaped(sch, sid, m)
    ensures i < n ==> CellAtDefault(sch, sid, i, CellOf(sch[sid], SetDefaults(sch, sid, m, n), i))
    ensures i >= n ==> ShapedCell(sch, sid, i, CellOf(sch[sid], SetDefaults(sch, sid, m, n), i))
    decreases sid, 1, n
  {
    if n == 0 {
    } else {
      var fs := sch[sid];
      var j := n - 1;
      var m1 := SetDefaults(sch, sid, m, j);
      assert WfMessage(sch, sid);
      DefaultsProgress(sch, sid, m, j, i);
      DefaultsProgress(sch, sid, m, j, j);
      var c := DefaultCell(sch, sid, j, CellOf(fs, m1, j));
      hide ShapedCell, CellAtDefault, DefaultCell, PutCell;
      if UnionHead(fs, i) != UnionHead(fs, j) {
        PutElsewhere(sch, sid, m1, j, c, i);
      } else {
        PutThenGet(sch, sid, m1, j, c);
        UnionCell(sch, sid, PutCell(fs, m1, j, c), i, j);
        if i == j {
          CellBecomesDefault(sch, sid, j, CellOf(fs, m1, j));
        } else {
          UnionCell(sch, sid, m1, i, j);
          SharedDefault(sch, sid, i, j, CellOf(fs, m1, j));
        }
      }
    }
  }

  /** What the defaults of one union member leave of another one's. */
  lemma SharedDefault(sch: Schema, sid: nat, i: nat, j: nat, c: Cell)
    requires WfSchema(sch) && sid < |sch| && i < |sch[sid]| && j < |sch[sid]| && i != j
    requires UnionHead(sch[sid], i) == UnionHead(sch[sid], j)
    ensures var d := NormalCell(sch[sid][j], DefaultCell(sch, sid, j, c));
            (CellAtDefault(sch, sid, i, c) ==> CellAtDefault(sch, sid, i, d)) && ShapedCell(sch, sid, i, d)
  {
    OneOfHead(sch[sid], i, j);
    assert WfMessage(sch, sid) && OkField(sch, sid, i) && OkField(sch, sid, j);
  }

  lemma {:induction false} CellBecomesDefault(sch: Schema, sid: nat, i: nat, c: Cell)
    requires WfSchema(sch) && sid < |sch| && i < |sch[sid]|
    requires ShapedCell(sch, sid, i, c)
    ensures CellAtDefault(sch, sid, i, NormalCell(sch[sid][i], DefaultCell(sch, sid, i, c)))
    decreases sid, 0, 0
  {
    var f := sch[sid][i];
    assert WfMessage(sch, sid) && OkField(sch, sid, i);
    if f.atype.Static? && (f.htype.Required? || f.htype.Optional?) {
      if f.ltype.SubMessage? {
        InitialisedAtDefault(sch, f.ptr.id, c.data.members);
      }
    }
  }

  /** `pb_message_set_to_defaults` puts every field of a laid out struct at its
      default. */
  lemma {:induction false} InitialisedAtDefault(sch: Schema, sid: nat, m: Store)
    requires WfSchema(sch) && sid < |sch| && Shaped(sch, sid, m)
    ensures AtDefault(sch, sid, Initialised(sch, sid, m))
    decreases sid, 2, 0
  {
    var n := |sch[sid]|;
    forall i | 0 <= i < n ensures CellAtDefault(sch, sid, i, CellOf(sch[sid], Initialised(sch, sid, m), i)) {
      DefaultsProgress(sch, sid, m, n, i);
    }
  }

  lemma {:induction false} ZeroItemShaped(sch: Schema, sid: nat, i: nat)
    requires WfSchema(sch) && sid < |sch| && i < |sch[sid]| && sch[sid][i].atype.Static?
    ensures ShapedItem(sch, sid, i, ZeroItem(sch, sid, i))
    decreases sid, 0, 0
  {
    assert WfMessage(sch, sid) && OkField(sch, sid, i);
    if sch[sid][i].ltype.SubMessage? {
      ZeroShaped(sch, sch[sid][i].ptr.id);
    }
  }

  lemma {:induction false} ZeroProgress(sch: Schema, sid: nat, n: nat, i: nat)
    requires WfSchema(sch) && sid < |sch| && i < n <= |sch[sid]|
    ensures ShapedCell(sch, sid, i, CellOf(sch[sid], ZeroStruct(sch, sid, n), i))
    decreases sid, 1, n
  {
    var fs := sch[sid];
    var j := n - 1;
    var m1 := ZeroStruct(sch, sid, j);
    assert WfMessage(sch, sid) && OkField(sch, sid, i) && OkField(sch, sid, j);
    var c := ZeroCell(sch, sid, j);
    if i == j {
      PutThenGet(sch, sid, m1, j, c);
      if fs[j].atype.Static? {
        ZeroItemShaped(sch, sid, j);
      }
    } else if UnionHead(fs, i) == UnionHead(fs, j) {
      OneOfHead(fs, i, j);
    } else {
      PutElsewhere(sch, sid, m1, j, c, i);
      ZeroProgress(sch, sid, j, i);
    }
  }

  lemma {:induction false} ZeroShaped(sch: Schema, sid: nat)
    requires WfSchema(sch) && sid < |sch|
    ensures Shaped(sch, sid, ZeroStruct(sch, sid, |sch[sid]|))
    decreases sid, 2, 0
  {
    var m := ZeroStruct(sch, sid, |sch[sid]|);
    forall i | 0 <= i < |sch[sid]| ensures ShapedCell(sch, sid, i, CellOf(sch[sid], m, i)) {
      ZeroProgress(sch, sid, |sch[sid]|, i);
    }
  }

  lemma FreshAtDefault(sch: Schema, sid: nat)
    requires WfSchema(sch) && sid < |sch|
    ensures AtDefault(sch, sid, FreshStruct(sch, sid).members)
  {
    ZeroShaped(sch, sid);
    InitialisedAtDefault(sch, sid, ZeroStruct(sch, sid, |sch[sid]|));
  }

  lemma {:induction false} DefaultCellShaped(sch: Schema, sid: nat, i: nat, c: Cell)
    requires WfSchema(sch) && sid < |sch| && i < |sch[sid]| && CellAtDefault(sch, sid, i, c)
    ensures ShapedCell(sch, sid, i, c)
    decreases sid, 0
  {
    var f := sch[sid][i];
    assert WfMessage(sch, sid) && OkField(sch, sid, i);
    if f.atype.Static? && (f.htype.Required? || f.htype.Optional?) && f.ltype.SubMessage? {
      DefaultIsShaped(sch, f.ptr.id, c.data.members);
    }
  }

  /** A struct at its defaults is laid out. */
  lemma {:induction false} DefaultIsShaped(sch: Schema, sid: nat, m: Store)
    requires WfSchema(sch) && sid < |sch| && AtDefault(sch, sid, m)
    ensures Shaped(sch, sid, m)
    decreases sid, 1
  {
    forall i | 0 <= i < |sch[sid]| ensures ShapedCell(sch, sid, i, CellOf(sch[sid], m, i)) {
      DefaultCellShaped(sch, sid, i, CellOf(sch[sid], m, i));
    }
  }

  // ------------------------------------------------------------ valid structs

  predicate NoNul(b: seq<Byte>) {
    forall k :: 0 <= k < |b| ==> b[k] != 0
  }

  /** What a caller may store in one item: a value of the member's type, a string
      terminated within its array or its block, a submessage shorter than 2^32
      bytes. */
  predicate ValidItem(sch: Schema, sid: nat, i: nat, x: Slot)
    requires WfSchema(sch) && sid < |sch| && i < |sch[sid]|
    decreases x, 2
  {
    var f := sch[sid][i];
    assert WfMessage(sch, sid) && OkField(sch, sid, i);
    match f.ltype
    case Bytes => x.Buf? && |x.bytes| <= PB_SIZE_MAX && (f.atype.Static? ==> BYTES_HEADER + |x.bytes| <= f.dataSize)
    case String => x.Buf? && NoNul(x.bytes) && |x.bytes| < (if f.atype.Static? then f.dataSize else PB_SIZE_MAX)
    case FixedLengthBytes => x.Buf? && |x.bytes| == f.dataSize
    case SubMessage => x.Sub? && ValidStruct(sch, f.ptr.id, x) && |EncMessage(sch, f.ptr.id, x).out| < TWO32
    case _ => x.Num? && InRange(f, x.n)
  }

  /** A pointer to an item. */
  predicate ValidTarget(sch: Schema, sid: nat, i: nat, x: Slot)
    requires WfSchema(sch) && sid < |sch| && i < |sch[sid]|
    decreases x, 3
  {
    x.Block? && x.cells != [] && ValidItem(sch, sid, i, x.cells[0])
  }

  /** An entry of an array. A null pointer stands for an empty string. */
  predicate ValidEntry(sch: Schema, sid: nat, i: nat, x: Slot)
    requires WfSchema(sch) && sid < |sch| && i < |sch[sid]|
    decreases x, 4
  {
    if OwnBuffer(sch[sid][i]) then x.Nil? || ValidTarget(sch, sid, i, x) else ValidItem(sch, sid, i, x)
  }

  predicate ValidItems(sch: Schema, sid: nat, i: nat, xs: seq<Slot>, n: nat)
    requires WfSchema(sch) && sid < |sch| && i < |sch[sid]|
    decreases xs
  {
    && n <= |xs| && (if sch[sid][i].atype.Static? then n <= sch[sid][i].arraySize else n <= PB_SIZE_MAX)
    && (forall k :: 0 <= k < n ==> ValidEntry(sch, sid, i, xs[k]))
    && (Packable(sch[sid][i].ltype) ==> |EncScalars(sch[sid][i], xs, n).out| < TWO32)
  }

  /** A which_ member is zero or the tag of a member of its union. */
  predicate ValidWhich(fs: seq<Field>, i: nat, w: int)
    requires i < |fs|
  {
    w == 0 || exists k :: 0 <= k < |fs| && UnionHead(fs, k) == UnionHead(fs, i) && fs[k].tag == w
  }

  predicate ValidStatic(sch: Schema, sid: nat, i: nat, c: Cell)
    requires WfSchema(sch) && sid < |sch| && i < |sch[sid]|
    decreases c.data, 4
  {
    var f := sch[sid][i];
    match f.htype
    case Required => ValidItem(sch, sid, i, c.data)
    case Optional =>
      if f.sizeOffset != 0 then
        (c.size == Num(0) || c.size == Num(1)) && (c.size == Num(1) ==> ValidItem(sch, sid, i, c.data))
      else ValidItem(sch, sid, i, c.data)
    case Repeated =>
      && c.data.Arr? && |c.data.items| == f.arraySize
      && (f.sizeOffset != 0 ==> c.size.Num? && 0 <= c.size.n)
      && ValidItems(sch, sid, i, c.data.items, if f.sizeOffset != 0 then c.size.n else f.arraySize)
    case OneOf =>
      c.size.Num? && ValidWhich(sch[sid], i, c.size.n) && (c.size.n == f.tag ==> ValidItem(sch, sid, i, c.data))
  }

  predicate ValidPointer(sch: Schema, sid: nat, i: nat, c: Cell)
    requires WfSchema(sch) && sid < |sch| && i < |sch[sid]|
    decreases c.data, 4
  {
    var f := sch[sid][i];
    match f.htype
    case Required => ValidTarget(sch, sid, i, c.data)
    case Optional => c.data.Nil? || ValidTarget(sch, sid, i, c.data)
    case Repeated =>
      && c.size.Num? && 0 <= c.size.n
      && (match c.data
          case Nil => c.size.n == 0
          case Block(_, cells) => ValidItems(sch, sid, i, cells, c.size.n)
          case _ => false)
    case OneOf =>
      && c.size.Num? && ValidWhich(sch[sid], i, c.size.n)
      && (c.size.n == f.tag ==> ValidTarget(sch, sid, i, c.data) || (OwnBuffer(f) && c.data.Nil?))
  }

  predicate ValidCell(sch: Schema, sid: nat, i: nat, c: Cell)
    requires WfSchema(sch) && sid < |sch| && i < |sch[sid]|
    decreases c.data, 5
  {
    if sch[sid][i].atype.Pointer? then ValidPointer(sch, sid, i, c) else ValidStatic(sch, sid, i, c)
  }

  predicate ValidField(sch: Schema, sid: nat, x: Slot, i: nat)
    requires WfSchema(sch) && sid < |sch| && i < |sch[sid]|
    decreases x, 0
  {
    x.Sub? && DataAt(sch[sid], i) in x.members && ValidCell(sch, sid, i, CellOf(sch[sid], x.members, i))
  }

  predicate ValidStruct(sch: Schema, sid: nat, x: Slot)
    requires WfSchema(sch) && sid < |sch|
    decreases x, 1
  {
    x.Sub? && forall i {:trigger ValidField(sch, sid, x, i)} :: 0 <= i < |sch[sid]| ==> ValidField(sch, sid, x, i)
  }

  // ---------------------------------------------------------------- equality

  predicate SameItem(sch: Schema, sid: nat, i: nat, x: Slot, y: Slot)
    requires WfSchema(sch) && sid < |sch| && i < |sch[sid]|
    decreases x, 2
  {
    assert WfMessage(sch, sid) && OkField(sch, sid, i);
    if sch[sid][i].ltype.SubMessage? then SameStruct(sch, sch[sid][i].ptr.id, x, y) else x == y
  }

  /** Pointers to equal items, or two null pointers. */
  predicate SameTarget(sch: Schema, sid: nat, i: nat, x: Slot, y: Slot)
    requires WfSchema(sch) && sid < |sch| && i < |sch[sid]|
    decreases x, 3
  {
    if x.Block? && x.cells != [] then y.Block? && y.cells != [] && SameItem(sch, sid, i, x.cells[0], y.cells[0])
    else x.Nil? && y.Nil?
  }

  predicate SameEntry(sch: Schema, sid: nat, i: nat, x: Slot, y: Slot)
    requires WfSchema(sch) && sid < |sch| && i < |sch[sid]|
    decreases x, 4
  {
    if OwnBuffer(sch[sid][i]) then SameTarget(sch, sid, i, x, y) else SameItem(sch, sid, i, x, y)
  }

  predicate SameItems(sch: Schema, sid: nat, i: nat, xs: seq<Slot>, ys: seq<Slot>, n: int)
    requires WfSchema(sch) && sid < |sch| && i < |sch[sid]|
    decreases xs
  {
    n <= |xs| && n <= |ys| && forall k :: 0 <= k < n ==> SameEntry(sch, sid, i, xs[k], ys[k])
  }

  /** The arrays of a repeated field. */
  predicate SameArray(sch: Schema, sid: nat, i: nat, a: Slot, b: Slot, n: int)
    requires WfSchema(sch) && sid < |sch| && i < |sch[sid]|
    decreases a, 4
  {
    match a
    case Arr(xs) => SameItems(sch, sid, i, xs, Items(b), n)
    case Block(_, xs) => SameItems(sch, sid, i, xs, Items(b), n)
    case _ => n <= 0
  }

  /** One item, in the struct or behind a pointer. */
  predicate SameValue(sch: Schema, sid: nat, i: nat, x: Slot, y: Slot)
    requires WfSchema(sch) && sid < |sch| && i < |sch[sid]|
    decreases x, 4
  {
    if sch[sid][i].atype.Pointer? then SameTarget(sch, sid, i, x, y) else SameItem(sch, sid, i, x, y)
  }

  /** Equal contents; what an absent field, an inactive oneof member or an unused
      array entry holds does not count, and neither do the names of heap blocks. */
  predicate SameCell(sch: Schema, sid: nat, i: nat, a: Cell, b: Cell)
    requires WfSchema(sch) && sid < |sch| && i < |sch[sid]|
    decreases a.data, 5
  {
    var f := sch[sid][i];
    match f.htype
    case Required => SameValue(sch, sid, i, a.data, b.data)
    case Optional =>
      if f.sizeOffset != 0 then a.size == b.size && (a.size != Num(0) ==> SameValue(sch, sid, i, a.data, b.data))
      else SameValue(sch, sid, i, a.data, b.data)
    case Repeated =>
      && (f.sizeOffset != 0 ==> a.size == b.size)
      && SameArray(sch, sid, i, a.data, b.data, ArrayCount(f, a.size))
    case OneOf => a.size == b.size && (a.size == Num(f.tag) ==> SameValue(sch, sid, i, a.data, b.data))
  }

  predicate SameField(sch: Schema, sid: nat, x: Slot, y: Slot, i: nat)
    requires WfSchema(sch) && sid < |sch| && i < |sch[sid]|
    decreases x, 0
  {
    && x.Sub? && y.Sub? && DataAt(sch[sid], i) in x.members
    && SameCell(sch, sid, i, CellOf(sch[sid], x.members, i), CellOf(sch[sid], y.members, i))
  }

  predicate SameStruct(sch: Schema, sid: nat, x: Slot, y: Slot)
    requires WfSchema(sch) && sid < |sch|
    decreases x, 1
  {
    && x.Sub? && y.Sub?
    && forall i {:trigger SameField(sch, sid, x, y, i)} :: 0 <= i < |sch[sid]| ==> SameField(sch, sid, x, y, i)
  }
}
