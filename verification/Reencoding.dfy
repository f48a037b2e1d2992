/** What pb_decode accepts can be encoded again: a successful decode leaves values of the
    members' types, and these are all that pb_encode asks for, but for the few things a
    decoder does not check. */
module Reencoding {
  import opened Bits
  import opened Varint
  import opened Descriptor
  import opened FieldIterator
  import opened Scalars
  import opened Defaults
  import opened Allocator
  import opened Release
  import opened EncodeSpec
  import D = DecodeSpec
  import opened Structs
  import opened Received
  import RoundTrip
  import DecodeOwnership

  // ------------------------------------------------------------- typed structs

  predicate TypedItem(sch: Schema, sid: nat, i: nat, x: Slot)
    requires WfSchema(sch) && sid < |sch| && i < |sch[sid]|
    decreases x, 2
  {
    var f := sch[sid][i];
    assert WfMessage(sch, sid) && OkField(sch, sid, i);
    match f.ltype
    case Bytes => x.Buf? && |x.bytes| <= PB_SIZE_MAX && (f.atype.Static? ==> BYTES_HEADER + |x.bytes| <= f.dataSize)
    case String => x.Buf? && |x.bytes| < (if f.atype.Static? then f.dataSize else PB_SIZE_MAX)
    case FixedLengthBytes => x.Buf? && |x.bytes| == f.dataSize
    case SubMessage => x.Sub? && TypedStruct(sch, f.ptr.id, x)
    case _ => x.Num? && InRange(f, x.n)
  }

  predicate TypedTarget(sch: Schema, sid: nat, i: nat, x: Slot)
    requires WfSchema(sch) && sid < |sch| && i < |sch[sid]|
    decreases x, 3
  {
    x.Block? && x.cells != [] && TypedItem(sch, sid, i, x.cells[0])
  }

  predicate TypedEntry(sch: Schema, sid: nat, i: nat, x: Slot)
    requires WfSchema(sch) && sid < |sch| && i < |sch[sid]|
    decreases x, 4
  {
    if OwnBuffer(sch[sid][i]) then TypedTarget(sch, sid, i, x) else TypedItem(sch, sid, i, x)
  }

  predicate TypedItems(sch: Schema, sid: nat, i: nat, xs: seq<Slot>, n: nat)
    requires WfSchema(sch) && sid < |sch| && i < |sch[sid]|
    decreases xs
  {
    n <= |xs| && forall k :: 0 <= k < n ==> TypedEntry(sch, sid, i, xs[k])
  }

  predicate TypedStatic(sch: Schema, sid: nat, i: nat, c: Cell)
    requires WfSchema(sch) && sid < |sch| && i < |sch[sid]|
    decreases c.data, 4
  {
    var f := sch[sid][i];
    match f.htype
    case Required => TypedItem(sch, sid, i, c.data)
    case Optional => TypedItem(sch, sid, i, c.data) && (f.sizeOffset != 0 ==> c.size == Num(0) || c.size == Num(1))
    case Repeated =>
      && c.data.Arr? && |c.data.items| == f.arraySize && TypedItems(sch, sid, i, c.data.items, |c.data.items|)
      && (f.sizeOffset != 0 ==> c.size.Num? && 0 <= c.size.n <= f.arraySize)
    case OneOf =>
      c.size.Num? && ValidWhich(sch[sid], i, c.size.n) && (c.size.n == f.tag ==> TypedItem(sch, sid, i, c.data))
  }

  predicate TypedPointer(sch: Schema, sid: nat, i: nat, c: Cell)
    requires WfSchema(sch) && sid < |sch| && i < |sch[sid]|
    decreases c.data, 4
  {
    var f := sch[sid][i];
    match f.htype
    case Repeated =>
      && c.size.Num? && 0 <= c.size.n <= PB_SIZE_MAX
      && (match c.data
          case Nil => c.size.n == 0
          case Block(_, cells) => TypedItems(sch, sid, i, cells, c.size.n)
          case _ => false)
    case OneOf =>
      c.size.Num? && ValidWhich(sch[sid], i, c.size.n) && (c.size.n == f.tag ==> TypedTarget(sch, sid, i, c.data))
    case _ => c.data.Nil? || TypedTarget(sch, sid, i, c.data)
  }

  predicate TypedCell(sch: Schema, sid: nat, i: nat, c: Cell)
    requires WfSchema(sch) && sid < |sch| && i < |sch[sid]|
    decreases c.data, 5
  {
    if sch[sid][i].atype.Pointer? then TypedPointer(sch, sid, i, c) else TypedStatic(sch, sid, i, c)
  }

  predicate TypedField(sch: Schema, sid: nat, x: Slot, i: nat)
    requires WfSchema(sch) && sid < |sch| && i < |sch[sid]|
    decreases x, 0
  {
    x.Sub? && DataAt(sch[sid], i) in x.members && TypedCell(sch, sid, i, CellOf(sch[sid], x.members, i))
  }

  /** Every member holds a value of its type; strings may have any bytes in them, and
      required pointers may be null. */
  predicate TypedStruct(sch: Schema, sid: nat, x: Slot)
    requires WfSchema(sch) && sid < |sch|
    decreases x, 1
  {
    x.Sub? && forall i {:trigger TypedField(sch, sid, x, i)} :: 0 <= i < |sch[sid]| ==> TypedField(sch, sid, x, i)
  }

  /** What the declarations behind a table guarantee: a bytes member has room for its
      header, and a default is a value of the member's type. */
  predicate SaneField(f: Field) {
    && (f.ltype.Bytes? && f.atype.Static? ==> BYTES_HEADER <= f.dataSize)
    && (f.ptr.Default? ==>
          match f.ltype
          case Bytes => f.ptr.value.Buf? && BYTES_HEADER + |f.ptr.value.bytes| <= f.dataSize
          case String => f.ptr.value.Buf? && |f.ptr.value.bytes| < f.dataSize
          case FixedLengthBytes => f.ptr.value.Buf? && |f.ptr.value.bytes| == f.dataSize
          case SubMessage => false
          case _ => f.ptr.value.Num? && InRange(f, f.ptr.value.n))
  }

  predicate Sane(sch: Schema)
    requires WfSchema(sch)
  {
    forall sid, i {:trigger OkField(sch, sid, i)} :: 0 <= sid < |sch| && 0 <= i < |sch[sid]| ==> SaneField(sch[sid][i])
  }

  // -------------------------------------------------------- what is not checked

  predicate EncodableItem(sch: Schema, sid: nat, i: nat, x: Slot)
    requires WfSchema(sch) && sid < |sch| && i < |sch[sid]|
    decreases x, 2
  {
    var f := sch[sid][i];
    assert WfMessage(sch, sid) && OkField(sch, sid, i);
    match f.ltype
    case String => NoNul(Contents(x))
    case SubMessage => EncodableStruct(sch, f.ptr.id, x) && |EncMessage(sch, f.ptr.id, x).out| < TWO32
    case _ => true
  }

  predicate EncodableEntry(sch: Schema, sid: nat, i: nat, x: Slot)
    requires WfSchema(sch) && sid < |sch| && i < |sch[sid]|
    decreases x, 4
  {
    if OwnBuffer(sch[sid][i]) then EncodableTarget(sch, sid, i, x) else EncodableItem(sch, sid, i, x)
  }

  predicate EncodableTarget(sch: Schema, sid: nat, i: nat, x: Slot)
    requires WfSchema(sch) && sid < |sch| && i < |sch[sid]|
    decreases x, 3
  {
    x.Block? && x.cells != [] ==> EncodableItem(sch, sid, i, x.cells[0])
  }

  predicate EncodableItems(sch: Schema, sid: nat, i: nat, xs: seq<Slot>, n: int)
    requires WfSchema(sch) && sid < |sch| && i < |sch[sid]|
    decreases xs
  {
    && (forall k :: 0 <= k < n && k < |xs| ==> EncodableEntry(sch, sid, i, xs[k]))
    && (Packable(sch[sid][i].ltype) && 0 <= n ==> |EncScalars(sch[sid][i], xs, n).out| < TWO32)
  }

  /** The field is in use. */
  predicate InUse(f: Field, c: Cell) {
    match f.htype
    case Optional => f.sizeOffset != 0 ==> c.size == Num(1)
    case OneOf => c.size == Num(f.tag)
    case _ => true
  }

  predicate EncodableField(sch: Schema, sid: nat, x: Slot, i: nat)
    requires WfSchema(sch) && sid < |sch| && i < |sch[sid]|
    decreases x, 0
  {
    x.Sub? && DataAt(sch[sid], i) in x.members ==>
      var f, c := sch[sid][i], CellOf(sch[sid], x.members, i);
      if f.htype.Repeated? then
        match c.data
        case Arr(items) => EncodableItems(sch, sid, i, items, ArrayCount(f, c.size))
        case Block(_, cells) => EncodableItems(sch, sid, i, cells, ArrayCount(f, c.size))
        case _ => true
      else if f.atype.Pointer? then
        (f.htype.Required? ==> !c.data.Nil?) && (InUse(f, c) ==> EncodableTarget(sch, sid, i, c.data))
      else InUse(f, c) ==> EncodableItem(sch, sid, i, c.data)
  }

  /** What a decoder does not check: no string in use has a NUL inside, no required
      pointer is null, and every submessage and packed block is encoded in less than
      2^32 bytes. */
  predicate EncodableStruct(sch: Schema, sid: nat, x: Slot)
    requires WfSchema(sch) && sid < |sch|
    decreases x, 1
  {
    forall i {:trigger EncodableField(sch, sid, x, i)} :: 0 <= i < |sch[sid]| ==> EncodableField(sch, sid, x, i)
  }

  // -------------------------------------------------------------- equivalence

  lemma {:induction false} ValidItemExactly(sch: Schema, sid: nat, i: nat, x: Slot)
    requires WfSchema(sch) && sid < |sch| && i < |sch[sid]| && TypedItem(sch, sid, i, x)
    ensures ValidItem(sch, sid, i, x) <==> EncodableItem(sch, sid, i, x)
    decreases x, 2
  {
    assert WfMessage(sch, sid) && OkField(sch, sid, i);
    if sch[sid][i].ltype.SubMessage? {
      hide EncFields;
      ValidExactly(sch, sch[sid][i].ptr.id, x);
    }
  }

  lemma {:induction false} ValidEntryExactly(sch: Schema, sid: nat, i: nat, x: Slot)
    requires WfSchema(sch) && sid < |sch| && i < |sch[sid]| && TypedEntry(sch, sid, i, x)
    ensures ValidEntry(sch, sid, i, x) <==> EncodableEntry(sch, sid, i, x)
    decreases x, 4
  {
    hide ValidItem, TypedItem, EncodableItem;
    if OwnBuffer(sch[sid][i]) {
      ValidItemExactly(sch, sid, i, x.cells[0]);
    } else {
      ValidItemExactly(sch, sid, i, x);
    }
  }

  lemma {:induction false} ValidItemsExactly(sch: Schema, sid: nat, i: nat, xs: seq<Slot>, n: nat)
    requires WfSchema(sch) && sid < |sch| && i < |sch[sid]| && TypedItems(sch, sid, i, xs, n)
    requires if sch[sid][i].atype.Static? then n <= sch[sid][i].arraySize else n <= PB_SIZE_MAX
    ensures ValidItems(sch, sid, i, xs, n) <==> EncodableItems(sch, sid, i, xs, n)
    decreases xs, 5
  {
    hide ValidEntry, TypedEntry, EncodableEntry, EncScalars;
    forall k | 0 <= k < n ensures ValidEntry(sch, sid, i, xs[k]) <==> EncodableEntry(sch, sid, i, xs[k]) {
      assert TypedEntry(sch, sid, i, xs[k]);
      ValidEntryExactly(sch, sid, i, xs[k]);
    }
  }

  lemma TypedPrefix(sch: Schema, sid: nat, i: nat, xs: seq<Slot>, n: nat, m: nat)
    requires WfSchema(sch) && sid < |sch| && i < |sch[sid]| && TypedItems(sch, sid, i, xs, n) && m <= n
    ensures TypedItems(sch, sid, i, xs, m)
  {
    hide TypedEntry;
  }

  lemma {:induction false} ValidPointerExactly(sch: Schema, sid: nat, x: Slot, i: nat)
    requires WfSchema(sch) && sid < |sch| && i < |sch[sid]| && TypedField(sch, sid, x, i) && sch[sid][i].atype.Pointer?
    ensures ValidField(sch, sid, x, i) <==> EncodableField(sch, sid, x, i)
    decreases x, 0, 0
  {
    hide ValidItem, TypedItem, EncodableItem, ValidItems, EncodableItems, ValidWhich;
    var f, c := sch[sid][i], CellOf(sch[sid], x.members, i);
    assert WfMessage(sch, sid) && OkField(sch, sid, i);
    assert TypedPointer(sch, sid, i, c);
    if f.htype.Repeated? {
      if c.data.Block? {
        ValidItemsExactly(sch, sid, i, c.data.cells, c.size.n);
      }
    } else if TypedTarget(sch, sid, i, c.data) {
      ValidItemExactly(sch, sid, i, c.data.cells[0]);
      assert ValidTarget(sch, sid, i, c.data) <==> EncodableTarget(sch, sid, i, c.data);
    }
    assert ValidCell(sch, sid, i, c) == ValidPointer(sch, sid, i, c);
  }

  lemma {:induction false} ValidStaticExactly(sch: Schema, sid: nat, x: Slot, i: nat)
    requires WfSchema(sch) && sid < |sch| && i < |sch[sid]| && TypedField(sch, sid, x, i) && sch[sid][i].atype.Static?
    ensures ValidField(sch, sid, x, i) <==> EncodableField(sch, sid, x, i)
    decreases x, 0, 0
  {
    hide ValidItem, TypedItem, EncodableItem, ValidItems, EncodableItems, ValidWhich;
    var f, c := sch[sid][i], CellOf(sch[sid], x.members, i);
    assert WfMessage(sch, sid) && OkField(sch, sid, i);
    assert TypedStatic(sch, sid, i, c);
    assert ValidCell(sch, sid, i, c) == ValidStatic(sch, sid, i, c);
    if f.htype.Repeated? {
      var n := ArrayCount(f, c.size);
      TypedPrefix(sch, sid, i, c.data.items, |c.data.items|, n);
      ValidItemsExactly(sch, sid, i, c.data.items, n);
    } else if TypedItem(sch, sid, i, c.data) {
      ValidItemExactly(sch, sid, i, c.data);
    }
  }

  /** A struct of typed values is valid exactly when it has none of the things a decoder
      does not check. */
  lemma {:induction false} ValidExactly(sch: Schema, sid: nat, x: Slot)
    requires WfSchema(sch) && sid < |sch| && TypedStruct(sch, sid, x)
    ensures ValidStruct(sch, sid, x) <==> EncodableStruct(sch, sid, x)
    decreases x, 1
  {
    forall i | 0 <= i < |sch[sid]| ensures ValidField(sch, sid, x, i) <==> EncodableField(sch, sid, x, i) {
      assert TypedField(sch, sid, x, i);
      assert WfMessage(sch, sid) && OkField(sch, sid, i);
      if sch[sid][i].atype.Pointer? {
        ValidPointerExactly(sch, sid, x, i);
      } else {
        ValidStaticExactly(sch, sid, x, i);
      }
    }
  }

  // ------------------------------------------------------------------ structs

  /** A written cell is typed, and no other member of its union becomes current. */
  predicate TypedWrite(sch: Schema, sid: nat, i: nat, c: Cell)
    requires WfSchema(sch) && sid < |sch| && i < |sch[sid]|
  {
    && TypedCell(sch, sid, i, NormalCell(sch[sid][i], c))
    && (sch[sid][i].htype.OneOf? ==> c.size == Num(0) || c.size == Num(sch[sid][i].tag))
  }

  lemma PutTypedField(sch: Schema, sid: nat, m: Store, i: nat, c: Cell, k: nat)
    requires WfSchema(sch) && sid < |sch| && i < |sch[sid]| && k < |sch[sid]|
    requires TypedField(sch, sid, Sub(m), k) && TypedWrite(sch, sid, i, c)
    ensures TypedField(sch, sid, Sub(PutCell(sch[sid], m, i, c)), k)
  {
    hide TypedItem, PutCell, WfTable;
    var fs := sch[sid];
    assert WfMessage(sch, sid);
    if k == i {
      FirstWrite(sch, sid, m, i, c);
    } else if UnionHead(fs, k) == UnionHead(fs, i) {
      PutTypedSibling(sch, sid, m, i, c, k);
    } else {
      PutElsewhere(sch, sid, m, i, c, k);
      PutKeeps(fs, m, i, c, DataAt(fs, k));
    }
  }

  lemma PutTypedSibling(sch: Schema, sid: nat, m: Store, i: nat, c: Cell, k: nat)
    requires WfSchema(sch) && sid < |sch| && i < |sch[sid]| && k < |sch[sid]| && k != i
    requires UnionHead(sch[sid], k) == UnionHead(sch[sid], i) && TypedWrite(sch, sid, i, c)
    ensures TypedField(sch, sid, Sub(PutCell(sch[sid], m, i, c)), k)
  {
    hide TypedItem, TypedTarget, PutCell, WfTable;
    var fs, m1 := sch[sid], PutCell(sch[sid], m, i, c);
    assert WfMessage(sch, sid) && OkField(sch, sid, i) && OkField(sch, sid, k);
    PutThenGet(sch, sid, m, i, c);
    PutHasKey(fs, m, i, c);
    OneOfHead(fs, k, i);
    UnionCell(sch, sid, m1, k, i);
    SameUnionData(fs, k, i);
    Siblings(sch, sid, i, k);
    var now := CellOf(fs, m1, k);
    assert now.size == c.size && ValidWhich(fs, k, c.size.n);
    if fs[k].atype.Static? {
      assert TypedStatic(sch, sid, k, now);
    } else {
      assert TypedPointer(sch, sid, k, now);
    }
  }

  lemma PutHasKey(fs: seq<Field>, m: Store, i: nat, c: Cell)
    ensures DataAt(fs, i) in PutCell(fs, m, i, c)
  {
  }

  lemma PutKeeps(fs: seq<Field>, m: Store, i: nat, c: Cell, k: int)
    ensures k in m ==> k in PutCell(fs, m, i, c)
  {
  }

  lemma Siblings(sch: Schema, sid: nat, i: nat, k: nat)
    requires WfSchema(sch) && sid < |sch| && i < |sch[sid]| && k < |sch[sid]| && i != k
    ensures sch[sid][i].tag != sch[sid][k].tag
  {
    assert WfMessage(sch, sid) && TagsDiffer(sch[sid], if i < k then i else k, if i < k then k else i);
  }

  lemma PutTyped(sch: Schema, sid: nat, m: Store, i: nat, c: Cell)
    requires WfSchema(sch) && sid < |sch| && i < |sch[sid]| && TypedStruct(sch, sid, Sub(m))
    requires TypedWrite(sch, sid, i, c)
    ensures TypedStruct(sch, sid, Sub(PutCell(sch[sid], m, i, c)))
  {
    hide TypedField, TypedWrite, PutCell;
    forall k | 0 <= k < |sch[sid]| ensures TypedField(sch, sid, Sub(PutCell(sch[sid], m, i, c)), k) {
      assert TypedField(sch, sid, Sub(m), k);
      PutTypedField(sch, sid, m, i, c, k);
    }
  }

  // ----------------------------------------------------------------- defaults

  lemma {:induction false} ZeroItemTyped(sch: Schema, sid: nat, i: nat)
    requires WfSchema(sch) && Sane(sch) && sid < |sch| && i < |sch[sid]| && sch[sid][i].atype.Static?
    ensures TypedItem(sch, sid, i, ZeroItem(sch, sid, i))
    decreases sid, 0, 0
  {
    assert WfMessage(sch, sid) && OkField(sch, sid, i);
    if sch[sid][i].ltype.SubMessage? {
      ZeroTyped(sch, sch[sid][i].ptr.id);
    } else {
      hide Sane;
      assert SaneField(sch[sid][i]);
    }
  }

  lemma {:induction false} ZeroCellTyped(sch: Schema, sid: nat, i: nat)
    requires WfSchema(sch) && Sane(sch) && sid < |sch| && i < |sch[sid]|
    ensures TypedWrite(sch, sid, i, ZeroCell(sch, sid, i))
    decreases sid, 1, 0
  {
    assert WfMessage(sch, sid) && OkField(sch, sid, i);
    var f := sch[sid][i];
    if f.atype.Static? && !f.htype.OneOf? {
      ZeroItemTyped(sch, sid, i);
      hide TypedItem, ZeroItem;
      var c := NormalCell(f, ZeroCell(sch, sid, i));
      if f.htype.Repeated? {
        var xs := Repeat(ZeroItem(sch, sid, i), f.arraySize);
        assert TypedItems(sch, sid, i, xs, |xs|);
      }
      assert TypedStatic(sch, sid, i, c);
    } else if f.atype.Static? {
      assert TypedStatic(sch, sid, i, NormalCell(f, ZeroCell(sch, sid, i)));
    } else {
      assert TypedPointer(sch, sid, i, NormalCell(f, ZeroCell(sch, sid, i)));
    }
  }

  lemma {:induction false} ZeroFieldTyped(sch: Schema, sid: nat, n: nat, i: nat)
    requires WfSchema(sch) && Sane(sch) && sid < |sch| && i < n <= |sch[sid]|
    ensures TypedField(sch, sid, Sub(ZeroStruct(sch, sid, n)), i)
    decreases sid, 2, n
  {
    hide TypedWrite, TypedField, PutCell;
    var j, m := n - 1, ZeroStruct(sch, sid, n - 1);
    ZeroCellTyped(sch, sid, j);
    if i == j {
      FirstWrite(sch, sid, m, j, ZeroCell(sch, sid, j));
    } else {
      ZeroFieldTyped(sch, sid, j, i);
      PutTypedField(sch, sid, m, j, ZeroCell(sch, sid, j), i);
    }
  }

  lemma FirstWrite(sch: Schema, sid: nat, m: Store, i: nat, c: Cell)
    requires WfSchema(sch) && sid < |sch| && i < |sch[sid]| && TypedWrite(sch, sid, i, c)
    ensures TypedField(sch, sid, Sub(PutCell(sch[sid], m, i, c)), i)
  {
    assert WfMessage(sch, sid);
    PutThenGet(sch, sid, m, i, c);
    PutHasKey(sch[sid], m, i, c);
  }

  /** Zeroed memory. */
  lemma {:induction false} ZeroTyped(sch: Schema, sid: nat)
    requires WfSchema(sch) && Sane(sch) && sid < |sch|
    ensures TypedStruct(sch, sid, Sub(ZeroStruct(sch, sid, |sch[sid]|)))
    decreases sid, 3, 0
  {
    hide TypedField;
    var n := |sch[sid]|;
    forall i | 0 <= i < n ensures TypedField(sch, sid, Sub(ZeroStruct(sch, sid, n)), i) {
      ZeroFieldTyped(sch, sid, n, i);
    }
  }

  lemma {:induction false} DefaultTyped(sch: Schema, sid: nat, i: nat, c: Cell)
    requires WfSchema(sch) && Sane(sch) && sid < |sch| && i < |sch[sid]| && TypedCell(sch, sid, i, c)
    ensures TypedWrite(sch, sid, i, DefaultCell(sch, sid, i, c))
    decreases sid, 0, 0
  {
    var f := sch[sid][i];
    assert WfMessage(sch, sid) && OkField(sch, sid, i) && SaneField(f);
    hide Sane;
    if f.atype.Static? && (f.htype.Required? || f.htype.Optional?) {
      assert TypedStatic(sch, sid, i, c) && TypedItem(sch, sid, i, c.data);
      if f.ltype.SubMessage? {
        DefaultsTyped(sch, f.ptr.id, c.data.members, |sch[f.ptr.id]|);
      } else {
        ZeroItemTyped(sch, sid, i);
      }
      hide TypedItem, ZeroItem;
      assert TypedItem(sch, sid, i, DefaultCell(sch, sid, i, c).data);
      assert TypedStatic(sch, sid, i, NormalCell(f, DefaultCell(sch, sid, i, c)));
    } else if f.atype.Static? {
      assert TypedStatic(sch, sid, i, NormalCell(f, DefaultCell(sch, sid, i, c)));
    } else {
      assert TypedPointer(sch, sid, i, NormalCell(f, DefaultCell(sch, sid, i, c)));
    }
  }

  lemma {:induction false} DefaultsTyped(sch: Schema, sid: nat, m: Store, n: nat)
    requires WfSchema(sch) && Sane(sch) && sid < |sch| && n <= |sch[sid]| && TypedStruct(sch, sid, Sub(m))
    ensures TypedStruct(sch, sid, Sub(SetDefaults(sch, sid, m, n)))
    decreases sid, 1, n
  {
    hide TypedWrite, TypedCell, PutCell, DefaultCell;
    if n == 0 {
    } else {
      DefaultsTyped(sch, sid, m, n - 1);
      var m1 := SetDefaults(sch, sid, m, n - 1);
      assert TypedField(sch, sid, Sub(m1), n - 1);
      DefaultTyped(sch, sid, n - 1, CellOf(sch[sid], m1, n - 1));
      PutTyped(sch, sid, m1, n - 1, DefaultCell(sch, sid, n - 1, CellOf(sch[sid], m1, n - 1)));
    }
  }

  lemma FreshTyped(sch: Schema, sid: nat)
    requires WfSchema(sch) && Sane(sch) && sid < |sch|
    ensures TypedStruct(sch, sid, FreshStruct(sch, sid))
  {
    ZeroTyped(sch, sid);
    DefaultsTyped(sch, sid, ZeroStruct(sch, sid, |sch[sid]|), |sch[sid]|);
  }

  // ----------------------------------------------------------------- one value

  lemma ScalarTyped(f: Field, s: seq<Byte>, was: Slot)
    requires WfWidth(f) && Packable(f.ltype) && DecScalar(f, s, was).ok
    ensures DecScalar(f, s, was).slot.Num? && InRange(f, DecScalar(f, s, was).slot.n)
  {
    if f.ltype.VarInt? || f.ltype.UVarInt? || f.ltype.SVarInt? {
      hide Varint64, Varint32;
      NarrowingExact(f, s, was);
    } else if f.ltype.Fixed64? {
      WordBound(s[..8][..4]);
      WordBound(s[..8][4..]);
    } else if f.ltype.Fixed32? {
      WordBound(s[..4]);
    }
  }

  lemma WordBound(b: seq<Byte>)
    requires |b| == 4
    ensures 0 <= DecFixed32(b) < TWO32
  {
  }

  /** A string or bytes array of the announced length. */
  lemma BufferTyped(sch: Schema, sid: nat, i: nat, s: seq<Byte>, dest: Slot, h: Heap)
    requires WfSchema(sch) && sid < |sch| && i < |sch[sid]| && (sch[sid][i].ltype.String? || sch[sid][i].ltype.Bytes?)
    requires D.DecBuffer(sch[sid][i], s, dest, h).ok
    ensures TypedEntry(sch, sid, i, D.DecBuffer(sch[sid][i], s, dest, h).slot)
  {
    hide Varint32, AllocateField;
    assert WfMessage(sch, sid) && OkField(sch, sid, i);
    Varint32Bound(s);
    var f, n := sch[sid][i], Varint32(s).value;
    U32Small(n + 1);
    assert n + 1 == TWO32 ==> U32(n + 1) == 0;
    if f.atype.Pointer? {
      var b := Buf(Varint32(s).rest[..n]);
      assert D.DecBuffer(f, s, dest, h).slot.cells == [b] && TypedItem(sch, sid, i, b);
    }
  }

  lemma FixedBytesTyped(sch: Schema, sid: nat, i: nat, s: seq<Byte>, dest: Slot, h: Heap)
    requires WfSchema(sch) && sid < |sch| && i < |sch[sid]| && sch[sid][i].ltype.FixedLengthBytes?
    requires D.DecFixedBytes(sch[sid][i], s, dest, h).ok
    ensures TypedItem(sch, sid, i, D.DecFixedBytes(sch[sid][i], s, dest, h).slot)
  {
    hide Varint32;
  }

  /** What a decoder of a value needs of the place it writes to. */
  predicate TypedDest(sch: Schema, sid: nat, i: nat, x: Slot)
    requires WfSchema(sch) && sid < |sch| && i < |sch[sid]|
  {
    assert WfMessage(sch, sid) && OkField(sch, sid, i);
    sch[sid][i].ltype.SubMessage? ==> TypedStruct(sch, sch[sid][i].ptr.id, x)
  }

  lemma {:induction false} ValueTyped(sch: Schema, sid: nat, i: nat, s: seq<Byte>, dest: Slot, h: Heap)
    requires WfSchema(sch) && Sane(sch) && sid < |sch| && i < |sch[sid]| && TypedDest(sch, sid, i, dest)
    ensures KnownRef(sch, sch[sid][i])
    ensures var v := D.DecValue(sch, sch[sid][i], s, dest, h); v.ok ==> TypedEntry(sch, sid, i, v.slot)
    decreases |s|, 2
  {
    hide DecScalar, D.DecBuffer, D.DecFixedBytes, D.Decode, D.DecodeNoInit, TypedStruct, Sane;
    var f := sch[sid][i];
    assert WfMessage(sch, sid) && OkField(sch, sid, i);
    var v := D.DecValue(sch, f, s, dest, h);
    if v.ok {
      if Packable(f.ltype) {
        ScalarTyped(f, s, dest);
      } else if f.ltype.String? || f.ltype.Bytes? {
        BufferTyped(sch, sid, i, s, dest, h);
      } else if f.ltype.FixedLengthBytes? {
        FixedBytesTyped(sch, sid, i, s, dest, h);
      } else {
        assert v == D.DecSub(sch, f, s, dest, h);
        assert dest == Sub(Members(dest)) by { TypedIsStruct(sch, f.ptr.id, dest); }
        var body := D.Delimited(s).body;
        if f.htype.Repeated? {
          DecodeTyped(sch, f.ptr.id, body, Members(dest), h);
        } else {
          NoInitTyped(sch, f.ptr.id, body, Members(dest), h);
        }
      }
    }
  }

  lemma TypedIsStruct(sch: Schema, sid: nat, x: Slot)
    requires WfSchema(sch) && sid < |sch| && TypedStruct(sch, sid, x)
    ensures x.Sub?
  {
  }

  // ----------------------------------------------------------------- one field

  /** The array still has entries of its type only. */
  predicate AllTyped(sch: Schema, sid: nat, i: nat, xs: seq<Slot>)
    requires WfSchema(sch) && sid < |sch| && i < |sch[sid]|
  {
    |xs| == sch[sid][i].arraySize && TypedItems(sch, sid, i, xs, |xs|)
  }

  lemma EntrySet(sch: Schema, sid: nat, i: nat, xs: seq<Slot>, k: nat, x: Slot)
    requires WfSchema(sch) && sid < |sch| && i < |sch[sid]| && AllTyped(sch, sid, i, xs) && TypedEntry(sch, sid, i, x)
    ensures AllTyped(sch, sid, i, SetItem(xs, k, x))
  {
    hide TypedEntry;
  }

  lemma {:induction false} PackedTyped(sch: Schema, sid: nat, i: nat, s: seq<Byte>, xs: seq<Slot>, count: nat)
    requires WfSchema(sch) && sid < |sch| && i < |sch[sid]| && Packable(sch[sid][i].ltype) && AllTyped(sch, sid, i, xs)
    requires count <= sch[sid][i].arraySize && sch[sid][i].atype.Static?
    ensures var p := D.PackedItems(sch[sid][i], s, xs, count);
            p.ok ==> AllTyped(sch, sid, i, p.items) && count <= p.count <= sch[sid][i].arraySize
    decreases |s|
  {
    hide DecScalar, AllTyped;
    var f := sch[sid][i];
    assert WfMessage(sch, sid) && OkField(sch, sid, i);
    if s == [] || count >= f.arraySize {
    } else {
      var d := DecScalar(f, s, ItemAt(xs, count));
      if d.ok {
        ScalarTyped(f, s, ItemAt(xs, count));
        EntrySet(sch, sid, i, xs, count, d.slot);
        PackedTyped(sch, sid, i, d.rest, SetItem(xs, count, d.slot), count + 1);
      }
    }
  }

  /** An unpacked element of a static array. */
  lemma {:induction false} ElementTyped(sch: Schema, sid: nat, i: nat, s: seq<Byte>, c: Cell, h: Heap)
    requires WfSchema(sch) && Sane(sch) && sid < |sch| && i < |sch[sid]|
    requires sch[sid][i].atype.Static? && sch[sid][i].htype.Repeated?
    requires AllTyped(sch, sid, i, Items(c.data)) && 0 <= Number(c.size)
    ensures KnownRef(sch, sch[sid][i])
    ensures var o := D.StaticSingle(sch, sch[sid][i], s, c, h); o.ok ==> TypedWrite(sch, sid, i, o.cell)
    decreases |s|, 3
  {
    hide D.DecValue, TypedEntry, Sane, TypedStruct, TypedWrite, TypedDest;
    var f, xs, k := sch[sid][i], Items(c.data), Number(c.size);
    assert WfMessage(sch, sid) && OkField(sch, sid, i);
    if k < f.arraySize {
      assert TypedEntry(sch, sid, i, xs[k]);
      EntryIsDest(sch, sid, i, xs[k]);
      ValueTyped(sch, sid, i, s, xs[k], h);
      var v := D.DecValue(sch, f, s, xs[k], h);
      if v.ok {
        EntrySet(sch, sid, i, xs, k, v.slot);
        hide AllTyped;
        ArrayWritten(sch, sid, i, Cell(Arr(SetItem(xs, k, v.slot)), Num(k + 1)));
      }
    }
  }

  lemma PackedArrayTyped(sch: Schema, sid: nat, i: nat, s: seq<Byte>, c: Cell, h: Heap)
    requires WfSchema(sch) && sid < |sch| && i < |sch[sid]| && Packable(sch[sid][i].ltype)
    requires sch[sid][i].atype.Static? && sch[sid][i].htype.Repeated?
    requires AllTyped(sch, sid, i, Items(c.data)) && 0 <= Number(c.size)
    requires sch[sid][i].sizeOffset != 0 ==> Number(c.size) <= sch[sid][i].arraySize
    ensures var o := D.StaticPacked(sch[sid][i], s, c, h); o.ok ==> TypedWrite(sch, sid, i, o.cell)
  {
    hide AllTyped, TypedWrite, D.Delimited;
    var f, k := sch[sid][i], Number(c.size);
    var o := D.StaticPacked(f, s, c, h);
    if o.ok {
      var body := D.Delimited(s).body;
      if k <= f.arraySize {
        PackedTyped(sch, sid, i, body, Items(c.data), k);
      } else {
        assert D.PackedItems(f, body, Items(c.data), k).items == Items(c.data);
      }
      hide D.PackedItems;
      ArrayWritten(sch, sid, i, o.cell);
    }
  }

  /** An element, or a packed block, of a static array. */
  lemma {:induction false} ArrayTyped(sch: Schema, sid: nat, i: nat, wire: nat, s: seq<Byte>, c: Cell, h: Heap)
    requires WfSchema(sch) && Sane(sch) && sid < |sch| && i < |sch[sid]|
    requires sch[sid][i].atype.Static? && sch[sid][i].htype.Repeated? && TypedCell(sch, sid, i, c)
    requires 0 <= Number(c.size)
    ensures KnownRef(sch, sch[sid][i])
    ensures var o := D.StaticStep(sch, sch[sid][i], wire, s, c, h); o.ok ==> TypedWrite(sch, sid, i, o.cell)
    decreases |s|, 4
  {
    hide D.StaticSingle, D.StaticPacked, TypedEntry, TypedWrite, Sane;
    assert WfMessage(sch, sid) && OkField(sch, sid, i);
    assert TypedStatic(sch, sid, i, c) && AllTyped(sch, sid, i, Items(c.data));
    if wire == WT_STRING && Packable(sch[sid][i].ltype) {
      PackedArrayTyped(sch, sid, i, s, c, h);
    } else {
      ElementTyped(sch, sid, i, s, c, h);
    }
  }

  lemma EntryIsDest(sch: Schema, sid: nat, i: nat, x: Slot)
    requires WfSchema(sch) && sid < |sch| && i < |sch[sid]| && sch[sid][i].atype.Static? && TypedEntry(sch, sid, i, x)
    ensures TypedDest(sch, sid, i, x)
  {
    assert WfMessage(sch, sid) && OkField(sch, sid, i);
  }

  lemma ArrayWritten(sch: Schema, sid: nat, i: nat, c: Cell)
    requires WfSchema(sch) && sid < |sch| && i < |sch[sid]| && sch[sid][i].atype.Static? && sch[sid][i].htype.Repeated?
    requires c.data.Arr? && AllTyped(sch, sid, i, c.data.items)
    requires sch[sid][i].sizeOffset != 0 ==> c.size.Num? && 0 <= c.size.n <= sch[sid][i].arraySize
    ensures TypedWrite(sch, sid, i, c)
  {
    hide TypedEntry;
    assert TypedStatic(sch, sid, i, NormalCell(sch[sid][i], c));
  }

  /** A required, optional or oneof field in the struct. */
  lemma {:induction false} StaticTyped(sch: Schema, sid: nat, i: nat, wire: nat, s: seq<Byte>, c: Cell, h: Heap)
    requires WfSchema(sch) && Sane(sch) && sid < |sch| && i < |sch[sid]|
    requires sch[sid][i].atype.Static? && !sch[sid][i].htype.Repeated?
    requires (sch[sid][i].htype.OneOf? && Number(c.size) != sch[sid][i].tag) || TypedCell(sch, sid, i, c)
    ensures KnownRef(sch, sch[sid][i])
    ensures var o := D.StaticStep(sch, sch[sid][i], wire, s, c, h); o.ok ==> TypedWrite(sch, sid, i, o.cell)
    decreases |s|, 4
  {
    var f := sch[sid][i];
    assert WfMessage(sch, sid) && OkField(sch, sid, i);
    hide D.DecValue, TypedItem, Sane, TypedStruct;
    var anew := f.htype.OneOf? && f.ltype.SubMessage? && Number(c.size) != f.tag;
    var start := if anew then FreshStruct(sch, f.ptr.id) else c.data;
    if f.ltype.SubMessage? {
      if f.htype.OneOf? && Number(c.size) != f.tag {
        FreshTyped(sch, f.ptr.id);
      } else {
        assert TypedStatic(sch, sid, i, c);
        ItemIsDest(sch, sid, i, c.data);
      }
    }
    ValueTyped(sch, sid, i, s, start, h);
    SingleWritten(sch, sid, i, D.StaticStep(sch, f, wire, s, c, h).cell);
  }

  lemma ItemIsDest(sch: Schema, sid: nat, i: nat, x: Slot)
    requires WfSchema(sch) && sid < |sch| && i < |sch[sid]| && TypedItem(sch, sid, i, x)
    ensures TypedDest(sch, sid, i, x)
  {
  }

  lemma SingleWritten(sch: Schema, sid: nat, i: nat, c: Cell)
    requires WfSchema(sch) && sid < |sch| && i < |sch[sid]| && sch[sid][i].atype.Static? && !sch[sid][i].htype.Repeated?
    requires sch[sid][i].htype.OneOf? ==> c.size == Num(sch[sid][i].tag)
    requires sch[sid][i].htype.Optional? && sch[sid][i].sizeOffset != 0 ==> c.size == Num(1)
    ensures TypedItem(sch, sid, i, c.data) ==> TypedWrite(sch, sid, i, c)
  {
    hide TypedItem;
    assert WfMessage(sch, sid) && OkField(sch, sid, i);
    if TypedItem(sch, sid, i, c.data) {
      assert sch[sid][i].htype.OneOf? ==> ValidWhich(sch[sid], i, c.size.n);
      assert TypedStatic(sch, sid, i, NormalCell(sch[sid][i], c));
    }
  }

  // ------------------------------------------------------------ pointer fields

  lemma NewIsDest(sch: Schema, sid: nat, i: nat, was: Slot)
    requires WfSchema(sch) && Sane(sch) && sid < |sch| && i < |sch[sid]|
    ensures KnownRef(sch, sch[sid][i]) && TypedDest(sch, sid, i, D.NewItem(sch, sch[sid][i], was))
  {
    assert WfMessage(sch, sid) && OkField(sch, sid, i);
    if sch[sid][i].ltype.SubMessage? {
      FreshTyped(sch, sch[sid][i].ptr.id);
    }
  }

  lemma Allocated(h: Heap, was: Slot, dataSize: nat, n: nat)
    ensures var a := AllocateField(h, was, dataSize, n);
            a.ok ==>
              && a.slot.Block? && |a.slot.cells| == n && n > 0
              && forall k :: 0 <= k < n && k < |Items(was)| ==> a.slot.cells[k] == Items(was)[k]
  {
    hide RejectsSize;
  }

  lemma LastTyped(sch: Schema, sid: nat, i: nat, was: seq<Slot>, cells: seq<Slot>, k: nat, x: Slot)
    requires WfSchema(sch) && sid < |sch| && i < |sch[sid]| && TypedItems(sch, sid, i, was, k) && k < |cells|
    requires forall j :: 0 <= j < k && j < |cells| && j < |was| ==> cells[j] == was[j]
    requires TypedEntry(sch, sid, i, x)
    ensures TypedItems(sch, sid, i, cells[k := x], k + 1)
  {
    hide TypedEntry;
  }

  /** An unpacked element of a heap array. */
  lemma {:induction false} SingleTyped(sch: Schema, sid: nat, i: nat, s: seq<Byte>, c: Cell, h: Heap)
    requires WfSchema(sch) && Sane(sch) && sid < |sch| && i < |sch[sid]|
    requires sch[sid][i].atype.Pointer? && sch[sid][i].htype.Repeated? && TypedCell(sch, sid, i, c)
    ensures KnownRef(sch, sch[sid][i])
    ensures var o := D.PointerSingle(sch, sch[sid][i], s, c, h); o.ok ==> TypedWrite(sch, sid, i, o.cell)
    decreases |s|, 4
  {
    hide D.DecValue, D.NewItem, TypedEntry, Sane, AllocateField;
    var f, k := sch[sid][i], Number(c.size);
    assert WfMessage(sch, sid) && OkField(sch, sid, i);
    assert TypedPointer(sch, sid, i, c);
    if D.PointerSingle(sch, f, s, c, h).ok {
      var a := AllocateField(h, c.data, f.dataSize, k + 1);
      Allocated(h, c.data, f.dataSize, k + 1);
      var item := D.NewItem(sch, f, ItemAt(Items(a.slot), k));
      NewIsDest(sch, sid, i, ItemAt(Items(a.slot), k));
      ValueTyped(sch, sid, i, s, item, a.heap);
      var x := D.DecValue(sch, f, s, item, a.heap).slot;
      LastTyped(sch, sid, i, Items(c.data), a.slot.cells, k, x);
      HeapWritten(sch, sid, i, Block(a.slot.id, a.slot.cells[k := x]), k + 1);
    }
  }

  lemma HeapWritten(sch: Schema, sid: nat, i: nat, data: Slot, n: nat)
    requires WfSchema(sch) && sid < |sch| && i < |sch[sid]| && sch[sid][i].atype.Pointer? && sch[sid][i].htype.Repeated?
    requires n <= PB_SIZE_MAX && (data.Nil? || data.Block?)
    requires if data.Block? then TypedItems(sch, sid, i, data.cells, n) else n == 0
    ensures TypedWrite(sch, sid, i, Cell(data, Num(n)))
  {
    hide TypedEntry;
    assert WfMessage(sch, sid) && OkField(sch, sid, i);
    assert TypedPointer(sch, sid, i, Cell(data, Num(n)));
  }

  lemma RoomMade(f: Field, left: nat, data: Slot, count: nat, room: nat, h: Heap)
    requires left > 0 && f.dataSize > 0 && DecodeOwnership.Room(data, count, room) && count < PB_SIZE_MAX
    ensures var a := D.MakeRoom(f, left, data, count, room, h);
            a.ok ==>
              && a.slot.Block? && DecodeOwnership.Room(a.slot, count + 1, D.RoomFor(left, f.dataSize, count, room))
              && forall k :: 0 <= k < count && k < |Items(a.slot)| ==> Items(a.slot)[k] == Items(data)[k]
  {
    hide AllocateField;
    if count + 1 > room {
      DecodeOwnership.GrownRoom(left, f.dataSize, count, room);
      Allocated(h, data, f.dataSize, D.Grown(left, f.dataSize, room));
    }
  }

  /** The packed loop of a heap array. */
  lemma {:induction false} GrowTyped(sch: Schema, sid: nat, i: nat, s: seq<Byte>, data: Slot, count: nat, room: nat,
                                     h: Heap)
    requires WfSchema(sch) && sid < |sch| && i < |sch[sid]| && Packable(sch[sid][i].ltype) && sch[sid][i].dataSize > 0
    requires DecodeOwnership.Room(data, count, room) && TypedItems(sch, sid, i, Items(data), count)
    ensures var g := D.GrowItems(sch[sid][i], s, data, count, room, h);
            g.ok ==>
              && (g.data.Nil? || g.data.Block?) && g.count <= PB_SIZE_MAX
              && TypedItems(sch, sid, i, Items(g.data), g.count)
    decreases |s|
  {
    hide D.MakeRoom, D.RoomFor, DecScalar, TypedEntry;
    var f := sch[sid][i];
    assert WfMessage(sch, sid) && OkField(sch, sid, i);
    if s == [] || count >= PB_SIZE_MAX {
    } else {
      var a := D.MakeRoom(f, |s|, data, count, room, h);
      var d := DecScalar(f, s, ItemAt(Items(a.slot), count));
      RoomMade(f, |s|, data, count, room, h);
      if a.ok && d.ok {
        ScalarEntry(sch, sid, i, s, ItemAt(Items(a.slot), count));
        LastTyped(sch, sid, i, Items(data), a.slot.cells, count, d.slot);
        GrowTyped(sch, sid, i, d.rest, D.WithItem(a.slot, count, d.slot), count + 1,
                  D.RoomFor(|s|, f.dataSize, count, room), a.heap);
      }
    }
  }

  lemma ScalarEntry(sch: Schema, sid: nat, i: nat, s: seq<Byte>, was: Slot)
    requires WfSchema(sch) && sid < |sch| && i < |sch[sid]| && Packable(sch[sid][i].ltype)
    requires DecScalar(sch[sid][i], s, was).ok
    ensures TypedEntry(sch, sid, i, DecScalar(sch[sid][i], s, was).slot)
  {
    hide DecScalar;
    assert WfMessage(sch, sid) && OkField(sch, sid, i);
    ScalarTyped(sch[sid][i], s, was);
  }

  lemma PackedPointerTyped(sch: Schema, sid: nat, i: nat, s: seq<Byte>, c: Cell, h: Heap)
    requires WfSchema(sch) && sid < |sch| && i < |sch[sid]| && Packable(sch[sid][i].ltype) && sch[sid][i].dataSize > 0
    requires sch[sid][i].atype.Pointer? && sch[sid][i].htype.Repeated? && TypedCell(sch, sid, i, c)
    ensures var o := D.PointerPacked(sch[sid][i], s, c, h); o.ok ==> TypedWrite(sch, sid, i, o.cell)
  {
    hide D.GrowItems, TypedEntry;
    var k := Number(c.size);
    assert TypedPointer(sch, sid, i, c);
    assert c.data.Block? ==> TypedItems(sch, sid, i, c.data.cells, k);
    assert DecodeOwnership.Room(c.data, k, k);
    var o := D.PointerPacked(sch[sid][i], s, c, h);
    if o.ok {
      GrowTyped(sch, sid, i, D.Delimited(s).body, c.data, k, k, h);
      HeapWritten(sch, sid, i, o.cell.data, Number(o.cell.size));
    }
  }

  /** A required, optional or oneof pointer field. */
  lemma {:induction false} OneTyped(sch: Schema, sid: nat, i: nat, s: seq<Byte>, c: Cell, h: Heap)
    requires WfSchema(sch) && Sane(sch) && sid < |sch| && i < |sch[sid]|
    requires sch[sid][i].atype.Pointer? && !sch[sid][i].htype.Repeated?
    ensures KnownRef(sch, sch[sid][i])
    ensures var o := D.PointerOne(sch, sch[sid][i], s, c, h); o.ok ==> TypedWrite(sch, sid, i, o.cell)
    decreases |s|, 4
  {
    hide D.DecValue, D.NewItem, TypedItem, Sane, AllocateField, ReleaseCell;
    var f := sch[sid][i];
    assert WfMessage(sch, sid) && OkField(sch, sid, i);
    var there := f.ltype.SubMessage? && !c.data.Nil?;
    var r := if there then ReleaseCell(sch, f, c.data, c.size, h) else CellHeap(c, h);
    var o := D.PointerOne(sch, f, s, c, h);
    if o.ok {
      if OwnBuffer(f) {
        ValueTyped(sch, sid, i, s, r.cell.data, r.heap);
      } else {
        var a := AllocateField(r.heap, r.cell.data, f.dataSize, 1);
        Allocated(r.heap, r.cell.data, f.dataSize, 1);
        NewIsDest(sch, sid, i, ItemAt(Items(a.slot), 0));
        ValueTyped(sch, sid, i, s, D.NewItem(sch, f, ItemAt(Items(a.slot), 0)), a.heap);
      }
      TargetWritten(sch, sid, i, o.cell);
    }
  }

  lemma TargetWritten(sch: Schema, sid: nat, i: nat, c: Cell)
    requires WfSchema(sch) && sid < |sch| && i < |sch[sid]| && sch[sid][i].atype.Pointer?
    requires !sch[sid][i].htype.Repeated?
    requires sch[sid][i].htype.OneOf? ==> c.size == Num(sch[sid][i].tag)
    requires TypedTarget(sch, sid, i, c.data)
    ensures TypedWrite(sch, sid, i, c)
  {
    hide TypedItem;
    assert WfMessage(sch, sid) && OkField(sch, sid, i);
    assert sch[sid][i].htype.OneOf? ==> ValidWhich(sch[sid], i, c.size.n);
    assert TypedPointer(sch, sid, i, NormalCell(sch[sid][i], c));
  }

  // ------------------------------------------------------------------ messages

  /** `decode_field`. */
  lemma {:induction false} FieldTyped(sch: Schema, sid: nat, i: nat, wire: nat, s: seq<Byte>, c: Cell, h: Heap)
    requires WfSchema(sch) && Sane(sch) && sid < |sch| && i < |sch[sid]| && TypedCell(sch, sid, i, c)
    requires D.FixedCount(sch[sid][i]) ==> 0 <= Number(c.size)
    ensures var o := D.FieldStep(sch, sid, i, wire, s, c, h); o.ok ==> TypedWrite(sch, sid, i, o.cell)
    decreases |s|, 5
  {
    hide D.StaticStep, D.PointerOne, D.PointerSingle, D.PointerPacked;
    hide ReleaseCell, TypedWrite, Sane, TypedItem, TypedItems;
    var f := sch[sid][i];
    assert WfMessage(sch, sid) && OkField(sch, sid, i);
    var u := if f.htype.OneOf? then D.ReleaseUnion(sch, sid, i, c, h) else D.UnionOut(true, c, h);
    if f.atype.Pointer? {
      if !f.htype.Repeated? {
        OneTyped(sch, sid, i, s, u.cell, u.heap);
      } else if wire == WT_STRING && Packable(f.ltype) {
        PackedPointerTyped(sch, sid, i, s, u.cell, u.heap);
      } else {
        SingleTyped(sch, sid, i, s, u.cell, u.heap);
      }
    } else if f.htype.Repeated? {
      assert f.sizeOffset != 0 ==> TypedStatic(sch, sid, i, c);
      ArrayTyped(sch, sid, i, wire, s, u.cell, u.heap);
    } else {
      if f.htype.OneOf? && u.ok {
        UnionStart(sch, sid, i, c, h);
      }
      if u.ok {
        StaticTyped(sch, sid, i, wire, s, u.cell, u.heap);
      }
    }
  }

  lemma UnionStart(sch: Schema, sid: nat, i: nat, c: Cell, h: Heap)
    requires WfSchema(sch) && sid < |sch| && i < |sch[sid]| && sch[sid][i].htype.OneOf?
    ensures var u := D.ReleaseUnion(sch, sid, i, c, h);
            u.ok ==> u.cell == c || Number(u.cell.size) != sch[sid][i].tag
  {
    assert WfMessage(sch, sid);
    if Number(c.size) > 0 {
      var j := FirstMatch(sch[sid], Number(c.size), 0);
      if j < |sch[sid]| && UnionHead(sch[sid], j) == UnionHead(sch[sid], i) && j != i {
        OneOfHead(sch[sid], j, i);
        assert OkField(sch, sid, j);
      }
    }
  }

  lemma {:induction false} KnownTyped(sch: Schema, sid: nat, i: nat, wire: nat, s: seq<Byte>, run: D.Run)
    requires WfSchema(sch) && Sane(sch) && sid < |sch| && i < |sch[sid]| && 0 <= run.fixedSize
    requires TypedStruct(sch, sid, Sub(run.store))
    ensures var o := D.KnownRecord(sch, sid, i, wire, s, run);
            o.ok ==> TypedStruct(sch, sid, Sub(o.run.store)) && 0 <= o.run.fixedSize
    decreases |s|, 6
  {
    hide D.FieldStep, TypedItem, TypedItems, PutCell, CellOf, Sane, TypedWrite;
    var fs := sch[sid];
    assert WfMessage(sch, sid) && OkField(sch, sid, i);
    var run1 := (if D.FixedCount(fs[i]) then D.EnterFixed(run, i) else run).(seen := run.seen + D.Seen(fs, i));
    var c := D.RunCell(fs, run1, i);
    assert TypedField(sch, sid, Sub(run.store), i);
    CountedTyped(sch, sid, i, CellOf(fs, run.store, i), c.size);
    FieldTyped(sch, sid, i, wire, s, c, run1.heap);
    DecodeOwnership.CounterStays(sch, sid, i, wire, s, run);
    var o := D.FieldStep(sch, sid, i, wire, s, c, run1.heap);
    if o.ok {
      hide TypedStruct;
      PutTyped(sch, sid, run.store, i, o.cell);
    }
  }

  /** The shared counter is no part of the type. */
  lemma CountedTyped(sch: Schema, sid: nat, i: nat, c: Cell, size: Slot)
    requires WfSchema(sch) && sid < |sch| && i < |sch[sid]| && TypedCell(sch, sid, i, c)
    ensures D.FixedCount(sch[sid][i]) ==> TypedCell(sch, sid, i, Cell(c.data, size))
  {
    hide TypedItems;
    assert WfMessage(sch, sid) && OkField(sch, sid, i);
    if D.FixedCount(sch[sid][i]) {
      assert TypedStatic(sch, sid, i, c) ==> TypedStatic(sch, sid, i, Cell(c.data, size));
    }
  }

  lemma {:induction false} RecordsTyped(sch: Schema, sid: nat, s: seq<Byte>, run: D.Run)
    requires WfSchema(sch) && Sane(sch) && sid < |sch| && 0 <= run.fixedSize && TypedStruct(sch, sid, Sub(run.store))
    ensures var o := D.Records(sch, sid, s, run); o.ok ==> TypedStruct(sch, sid, Sub(o.run.store))
    decreases |s|, 8
  {
    hide D.Record, TypedStruct, Sane;
    if s == [] {
    } else {
      RecordTyped(sch, sid, s, run);
      var o := D.Record(sch, sid, s, run);
      if o.ok && !o.stopped {
        RecordsTyped(sch, sid, o.rest, o.run);
      }
    }
  }

  lemma {:induction false} RecordTyped(sch: Schema, sid: nat, s: seq<Byte>, run: D.Run)
    requires WfSchema(sch) && Sane(sch) && sid < |sch| && 0 <= run.fixedSize && TypedStruct(sch, sid, Sub(run.store))
    ensures var o := D.Record(sch, sid, s, run);
            o.ok ==> TypedStruct(sch, sid, Sub(o.run.store)) && 0 <= o.run.fixedSize
    decreases |s|, 7
  {
    hide D.KnownRecord, TypedField, Sane;
    match D.DecodeTag(s)
    case Tag(number, wire, rest) =>
      if FirstMatch(sch[sid], number, 0) < |sch[sid]| {
        KnownTyped(sch, sid, FirstMatch(sch[sid], number, 0), wire, rest, run);
      }
    case _ =>
  }

  lemma {:induction false} NoInitTyped(sch: Schema, sid: nat, s: seq<Byte>, m: Store, h: Heap)
    requires WfSchema(sch) && Sane(sch) && sid < |sch| && TypedStruct(sch, sid, Sub(m))
    ensures var o := D.DecodeNoInit(sch, sid, s, m, h); o.ok ==> TypedStruct(sch, sid, Sub(o.store))
    decreases |s|, 9
  {
    RecordsTyped(sch, sid, s, D.Start(m, h));
  }

  /** Whatever `pb_decode` accepts leaves values of the members' types, at any depth. */
  lemma {:induction false} DecodeTyped(sch: Schema, sid: nat, s: seq<Byte>, m: Store, h: Heap)
    requires WfSchema(sch) && Sane(sch) && sid < |sch| && TypedStruct(sch, sid, Sub(m))
    ensures var o := D.Decode(sch, sid, s, m, h); o.ok ==> TypedStruct(sch, sid, Sub(o.store))
    decreases |s|, 10
  {
    hide TypedStruct, D.DecodeNoInit, Sane;
    DefaultsTyped(sch, sid, m, |sch[sid]|);
    NoInitTyped(sch, sid, s, Initialised(sch, sid, m), h);
  }

  /** Of everything that `pb_decode` accepts into zeroed memory: the result may be encoded
      again exactly when it has none of the things a decoder does not check. Then
      encoding it and decoding that, with memory to spare, succeeds and consumes every
      byte; the struct is the same, up to the names of the blocks, exactly when no
      explicit proto3 default hides a value in it. */
  lemma DecodeEncodeDecode(sch: Schema, sid: nat, s: seq<Byte>, h: Heap, g: Heap)
    requires WfSchema(sch) && Sane(sch) && sid < |sch| && Generous(g)
    requires D.Decode(sch, sid, s, ZeroStruct(sch, sid, |sch[sid]|), h).ok
    ensures var zero := ZeroStruct(sch, sid, |sch[sid]|);
            var x := Sub(D.Decode(sch, sid, s, zero, h).store);
            var again := D.Decode(sch, sid, EncMessage(sch, sid, x).out, zero, g);
            && (ValidStruct(sch, sid, x) <==> EncodableStruct(sch, sid, x))
            && (EncodableStruct(sch, sid, x) ==>
                  && EncMessage(sch, sid, x).ok && again.ok && again.rest == []
                  && (SameStruct(sch, sid, x, Sub(again.store)) <==> KeptStruct(sch, sid, x)))
  {
    hide D.Decode, TypedStruct, ValidStruct, EncodableStruct, EncFields, SameStruct, KeptStruct, Sane, Shaped;
    var zero := ZeroStruct(sch, sid, |sch[sid]|);
    ZeroTyped(sch, sid);
    ZeroShaped(sch, sid);
    DecodeTyped(sch, sid, s, zero, h);
    var x := Sub(D.Decode(sch, sid, s, zero, h).store);
    ValidExactly(sch, sid, x);
    if EncodableStruct(sch, sid, x) {
      RoundTrip.EncodeDecode(sch, sid, x, zero, g);
    }
  }
}
