/** What a decoder makes of an encoded struct: an equal one, except that explicit
    defaults of proto3-style fields take the place of values that are not sent, and
    that a null pointer to a string in use arrives as an empty string. */
module Received {
  import opened Descriptor
  import opened EncodeSpec
  import opened Structs

  /** The field is not sent, and its absence means an explicit default. */
  predicate Hidden(sch: Schema, sid: nat, i: nat, x: Slot)
    requires WfSchema(sch) && sid < |sch| && i < |sch[sid]|
  {
    var f := sch[sid][i];
    assert WfMessage(sch, sid) && OkField(sch, sid, i);
    f.atype.Static? && f.htype.Optional? && f.sizeOffset == 0 && f.ptr.Default? && IsDefault(sch, f, x, Undef)
  }

  // --------------------------------------------------------- what is received

  predicate ReceivedItem(sch: Schema, sid: nat, i: nat, x: Slot, y: Slot)
    requires WfSchema(sch) && sid < |sch| && i < |sch[sid]|
    decreases x, 2
  {
    assert WfMessage(sch, sid) && OkField(sch, sid, i);
    if sch[sid][i].ltype.SubMessage? then ReceivedStruct(sch, sch[sid][i].ptr.id, x, y) else x == y
  }

  /** A block of its own, with the item or with an empty string. */
  predicate ReceivedTarget(sch: Schema, sid: nat, i: nat, x: Slot, y: Slot)
    requires WfSchema(sch) && sid < |sch| && i < |sch[sid]|
    decreases x, 3
  {
    && y.Block? && |y.cells| == 1
    && (if x.Block? && x.cells != [] then ReceivedItem(sch, sid, i, x.cells[0], y.cells[0]) else y.cells[0] == Buf([]))
  }

  predicate ReceivedEntry(sch: Schema, sid: nat, i: nat, x: Slot, y: Slot)
    requires WfSchema(sch) && sid < |sch| && i < |sch[sid]|
    decreases x, 4
  {
    if OwnBuffer(sch[sid][i]) then ReceivedTarget(sch, sid, i, x, y) else ReceivedItem(sch, sid, i, x, y)
  }

  predicate ReceivedItems(sch: Schema, sid: nat, i: nat, xs: seq<Slot>, ys: seq<Slot>, n: int)
    requires WfSchema(sch) && sid < |sch| && i < |sch[sid]|
    decreases xs
  {
    n <= |xs| && n <= |ys| && forall k :: 0 <= k < n ==> ReceivedEntry(sch, sid, i, xs[k], ys[k])
  }

  predicate ReceivedArray(sch: Schema, sid: nat, i: nat, a: Slot, b: Slot, n: int)
    requires WfSchema(sch) && sid < |sch| && i < |sch[sid]|
    decreases a, 4
  {
    match a
    case Arr(xs) => ReceivedItems(sch, sid, i, xs, Items(b), n)
    case Block(_, xs) => ReceivedItems(sch, sid, i, xs, Items(b), n)
    case _ => n <= 0
  }

  /** The value of a required, optional or oneof field. */
  predicate ReceivedValue(sch: Schema, sid: nat, i: nat, x: Slot, y: Slot)
    requires WfSchema(sch) && sid < |sch| && i < |sch[sid]|
    decreases x, 4
  {
    if sch[sid][i].atype.Pointer? then ReceivedTarget(sch, sid, i, x, y) else ReceivedItem(sch, sid, i, x, y)
  }

  predicate ReceivedCell(sch: Schema, sid: nat, i: nat, a: Cell, b: Cell)
    requires WfSchema(sch) && sid < |sch| && i < |sch[sid]|
    decreases a.data, 5
  {
    var f := sch[sid][i];
    match f.htype
    case Required => ReceivedValue(sch, sid, i, a.data, b.data)
    case Optional =>
      if f.sizeOffset != 0 then a.size == b.size && (a.size != Num(0) ==> ReceivedValue(sch, sid, i, a.data, b.data))
      else if f.atype.Pointer? && a.data.Nil? then b.data.Nil?
      else if Hidden(sch, sid, i, a.data) then b.data == f.ptr.value
      else ReceivedValue(sch, sid, i, a.data, b.data)
    case Repeated =>
      && (f.sizeOffset != 0 ==> a.size == b.size)
      && ReceivedArray(sch, sid, i, a.data, b.data, ArrayCount(f, a.size))
    case OneOf => a.size == b.size && (a.size == Num(f.tag) ==> ReceivedValue(sch, sid, i, a.data, b.data))
  }

  predicate ReceivedField(sch: Schema, sid: nat, x: Slot, y: Slot, i: nat)
    requires WfSchema(sch) && sid < |sch| && i < |sch[sid]|
    decreases x, 0
  {
    && x.Sub? && y.Sub? && DataAt(sch[sid], i) in x.members
    && ReceivedCell(sch, sid, i, CellOf(sch[sid], x.members, i), CellOf(sch[sid], y.members, i))
  }

  /** `y` is `x` as it arrives. */
  predicate ReceivedStruct(sch: Schema, sid: nat, x: Slot, y: Slot)
    requires WfSchema(sch) && sid < |sch|
    decreases x, 1
  {
    && x.Sub? && y.Sub?
    && forall i {:trigger ReceivedField(sch, sid, x, y, i)} :: 0 <= i < |sch[sid]| ==> ReceivedField(sch, sid, x, y, i)
  }

  // ---------------------------------------------------------------- what survives

  predicate KeptItem(sch: Schema, sid: nat, i: nat, x: Slot)
    requires WfSchema(sch) && sid < |sch| && i < |sch[sid]|
    decreases x, 2
  {
    assert WfMessage(sch, sid) && OkField(sch, sid, i);
    sch[sid][i].ltype.SubMessage? ==> KeptStruct(sch, sch[sid][i].ptr.id, x)
  }

  predicate KeptTarget(sch: Schema, sid: nat, i: nat, x: Slot)
    requires WfSchema(sch) && sid < |sch| && i < |sch[sid]|
    decreases x, 3
  {
    x.Block? && x.cells != [] && KeptItem(sch, sid, i, x.cells[0])
  }

  predicate KeptEntry(sch: Schema, sid: nat, i: nat, x: Slot)
    requires WfSchema(sch) && sid < |sch| && i < |sch[sid]|
    decreases x, 4
  {
    if OwnBuffer(sch[sid][i]) then KeptTarget(sch, sid, i, x) else KeptItem(sch, sid, i, x)
  }

  predicate KeptItems(sch: Schema, sid: nat, i: nat, xs: seq<Slot>, n: int)
    requires WfSchema(sch) && sid < |sch| && i < |sch[sid]|
    decreases xs
  {
    forall k :: 0 <= k < n && k < |xs| ==> KeptEntry(sch, sid, i, xs[k])
  }

  predicate KeptArray(sch: Schema, sid: nat, i: nat, a: Slot, n: int)
    requires WfSchema(sch) && sid < |sch| && i < |sch[sid]|
    decreases a, 4
  {
    match a
    case Arr(xs) => KeptItems(sch, sid, i, xs, n)
    case Block(_, xs) => KeptItems(sch, sid, i, xs, n)
    case _ => true
  }

  predicate KeptValue(sch: Schema, sid: nat, i: nat, x: Slot)
    requires WfSchema(sch) && sid < |sch| && i < |sch[sid]|
    decreases x, 4
  {
    if sch[sid][i].atype.Pointer? then KeptTarget(sch, sid, i, x) else KeptItem(sch, sid, i, x)
  }

  predicate KeptCell(sch: Schema, sid: nat, i: nat, c: Cell)
    requires WfSchema(sch) && sid < |sch| && i < |sch[sid]|
    decreases c.data, 5
  {
    var f := sch[sid][i];
    match f.htype
    case Required => KeptValue(sch, sid, i, c.data)
    case Optional =>
      if f.sizeOffset != 0 then c.size != Num(0) ==> KeptValue(sch, sid, i, c.data)
      else if f.atype.Pointer? && c.data.Nil? then true
      else if Hidden(sch, sid, i, c.data) then c.data == f.ptr.value
      else KeptValue(sch, sid, i, c.data)
    case Repeated => KeptArray(sch, sid, i, c.data, ArrayCount(f, c.size))
    case OneOf => c.size == Num(f.tag) ==> KeptValue(sch, sid, i, c.data)
  }

  predicate KeptField(sch: Schema, sid: nat, x: Slot, i: nat)
    requires WfSchema(sch) && sid < |sch| && i < |sch[sid]|
    decreases x, 0
  {
    x.Sub? && DataAt(sch[sid], i) in x.members && KeptCell(sch, sid, i, CellOf(sch[sid], x.members, i))
  }

  /** No value in use, at any depth, is hidden by a default that differs from it, and
      no string in use is a null pointer. */
  predicate KeptStruct(sch: Schema, sid: nat, x: Slot)
    requires WfSchema(sch) && sid < |sch|
    decreases x, 1
  {
    x.Sub? && forall i {:trigger KeptField(sch, sid, x, i)} :: 0 <= i < |sch[sid]| ==> KeptField(sch, sid, x, i)
  }

  lemma {:induction false} ItemSurvives(sch: Schema, sid: nat, i: nat, x: Slot, y: Slot)
    requires WfSchema(sch) && sid < |sch| && i < |sch[sid]| && ReceivedItem(sch, sid, i, x, y)
    ensures SameItem(sch, sid, i, x, y) <==> KeptItem(sch, sid, i, x)
    decreases x, 2
  {
    assert WfMessage(sch, sid) && OkField(sch, sid, i);
    if sch[sid][i].ltype.SubMessage? {
      SurvivesExactly(sch, sch[sid][i].ptr.id, x, y);
    }
  }

  lemma {:induction false} TargetSurvives(sch: Schema, sid: nat, i: nat, x: Slot, y: Slot)
    requires WfSchema(sch) && sid < |sch| && i < |sch[sid]| && ReceivedTarget(sch, sid, i, x, y)
    ensures SameTarget(sch, sid, i, x, y) <==> KeptTarget(sch, sid, i, x)
    decreases x, 3
  {
    if x.Block? && x.cells != [] {
      ItemSurvives(sch, sid, i, x.cells[0], y.cells[0]);
    }
  }

  lemma {:induction false} ValueSurvives(sch: Schema, sid: nat, i: nat, x: Slot, y: Slot)
    requires WfSchema(sch) && sid < |sch| && i < |sch[sid]|
    ensures ReceivedValue(sch, sid, i, x, y) ==> (SameValue(sch, sid, i, x, y) <==> KeptValue(sch, sid, i, x))
    ensures ReceivedEntry(sch, sid, i, x, y) ==> (SameEntry(sch, sid, i, x, y) <==> KeptEntry(sch, sid, i, x))
    decreases x, 4
  {
    hide ReceivedTarget, ReceivedItem, SameTarget, SameItem, KeptTarget, KeptItem;
    if ReceivedTarget(sch, sid, i, x, y) {
      TargetSurvives(sch, sid, i, x, y);
    }
    if ReceivedItem(sch, sid, i, x, y) {
      ItemSurvives(sch, sid, i, x, y);
    }
  }

  lemma {:induction false} ItemsSurvive(sch: Schema, sid: nat, i: nat, xs: seq<Slot>, ys: seq<Slot>, n: int)
    requires WfSchema(sch) && sid < |sch| && i < |sch[sid]| && ReceivedItems(sch, sid, i, xs, ys, n)
    ensures SameItems(sch, sid, i, xs, ys, n) <==> KeptItems(sch, sid, i, xs, n)
    decreases xs
  {
    hide ReceivedEntry, SameEntry, KeptEntry;
    forall k | 0 <= k < n ensures SameEntry(sch, sid, i, xs[k], ys[k]) <==> KeptEntry(sch, sid, i, xs[k]) {
      ValueSurvives(sch, sid, i, xs[k], ys[k]);
    }
  }

  lemma {:induction false} ArraySurvives(sch: Schema, sid: nat, i: nat, a: Slot, b: Slot, n: int)
    requires WfSchema(sch) && sid < |sch| && i < |sch[sid]| && ReceivedArray(sch, sid, i, a, b, n)
    ensures SameArray(sch, sid, i, a, b, n) <==> KeptArray(sch, sid, i, a, n)
    decreases a, 4
  {
    hide ReceivedItems, SameItems, KeptItems;
    match a
    case Arr(xs) => ItemsSurvive(sch, sid, i, xs, Items(b), n);
    case Block(_, xs) => ItemsSurvive(sch, sid, i, xs, Items(b), n);
    case _ =>
  }

  lemma {:induction false} CellSurvives(sch: Schema, sid: nat, i: nat, a: Cell, b: Cell)
    requires WfSchema(sch) && sid < |sch| && i < |sch[sid]| && ReceivedCell(sch, sid, i, a, b)
    ensures SameCell(sch, sid, i, a, b) <==> KeptCell(sch, sid, i, a)
    decreases a.data, 5
  {
    var f := sch[sid][i];
    assert WfMessage(sch, sid) && OkField(sch, sid, i);
    if f.htype.Repeated? {
      hide Hidden, ReceivedArray, SameArray, KeptArray;
      ArraySurvives(sch, sid, i, a.data, b.data, ArrayCount(f, a.size));
    } else if f.htype.Optional? && f.sizeOffset == 0 {
      OptionalSurvives(sch, sid, i, a.data, b.data);
    } else {
      hide Hidden, ReceivedValue, SameValue, KeptValue;
      ValueSurvives(sch, sid, i, a.data, b.data);
    }
  }

  /** A hidden value is no submessage. */
  lemma {:induction false} OptionalSurvives(sch: Schema, sid: nat, i: nat, x: Slot, y: Slot)
    requires WfSchema(sch) && sid < |sch| && i < |sch[sid]|
    requires sch[sid][i].htype.Optional? && sch[sid][i].sizeOffset == 0
    requires ReceivedCell(sch, sid, i, Cell(x, Undef), Cell(y, Undef))
    ensures SameCell(sch, sid, i, Cell(x, Undef), Cell(y, Undef)) <==> KeptCell(sch, sid, i, Cell(x, Undef))
    decreases x, 5, 0
  {
    var f := sch[sid][i];
    assert WfMessage(sch, sid) && OkField(sch, sid, i);
    if f.atype.Pointer? && x.Nil? {
    } else if Hidden(sch, sid, i, x) {
      assert !f.ltype.SubMessage? && SameValue(sch, sid, i, x, y) == SameItem(sch, sid, i, x, y);
    } else {
      ValueSurvives(sch, sid, i, x, y);
    }
  }

  /** What arrives is equal to what was sent exactly when nothing in use is hidden. */
  lemma {:induction false} SurvivesExactly(sch: Schema, sid: nat, x: Slot, y: Slot)
    requires WfSchema(sch) && sid < |sch| && ReceivedStruct(sch, sid, x, y)
    ensures SameStruct(sch, sid, x, y) <==> KeptStruct(sch, sid, x)
    decreases x, 1
  {
    hide ReceivedCell, SameCell, KeptCell;
    forall i | 0 <= i < |sch[sid]| ensures SameField(sch, sid, x, y, i) <==> KeptField(sch, sid, x, i) {
      assert ReceivedField(sch, sid, x, y, i);
      CellSurvives(sch, sid, i, CellOf(sch[sid], x.members, i), CellOf(sch[sid], y.members, i));
    }
  }
}
