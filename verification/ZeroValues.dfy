/** Proto3: a field without presence goes out exactly when its value is not the zero of
    its type. */
module ZeroValues {
  import opened Varint
  import opened Descriptor
  import opened Scalars
  import opened Defaults
  import opened Release
  import opened EncodeSpec
  import opened Structs

  /** The zero of the type: the number 0, no bytes, a string that ends where it starts, a
      submessage with nothing in it. Bytes of fixed length have none. */
  predicate ZeroValue(sch: Schema, f: Field, x: Slot)
    requires WfSchema(sch) && KnownRef(sch, f)
    decreases x, 1
  {
    match f.ltype
    case Bytes => Contents(x) == []
    case String => Contents(x) == [] || Contents(x)[0] == 0
    case FixedLengthBytes => false
    case SubMessage => f.ptr.Fields? && Blank(sch, f.ptr.id, x)
    case _ => Number(x) == 0
  }

  /** Nothing is in the field: it is zero, null, absent or empty. */
  predicate BlankCell(sch: Schema, f: Field, data: Slot, size: Slot)
    requires WfSchema(sch) && KnownRef(sch, f)
    decreases data, 2
  {
    match f.htype
    case Required => false
    case Optional =>
      if f.sizeOffset != 0 then Number(size) == 0
      else if f.atype.Pointer? then data.Nil?
      else ZeroValue(sch, f, data)
    case Repeated => f.sizeOffset != 0 && Number(size) == 0
    case OneOf => Number(size) == 0
  }

  predicate BlankField(sch: Schema, sid: nat, x: Slot, i: nat)
    requires WfSchema(sch) && sid < |sch| && i < |sch[sid]|
    decreases x, 0, i
  {
    assert WfMessage(sch, sid) && OkField(sch, sid, i);
    x.Sub? && DataAt(sch[sid], i) in x.members ==>
      BlankCell(sch, sch[sid][i], x.members[DataAt(sch[sid], i)], CellOf(sch[sid], x.members, i).size)
  }

  /** All members of the struct are zero, null, absent or empty. */
  predicate Blank(sch: Schema, sid: nat, x: Slot)
    requires WfSchema(sch) && sid < |sch|
    decreases x, 0, |sch[sid]|
  {
    forall i {:trigger BlankField(sch, sid, x, i)} :: 0 <= i < |sch[sid]| ==> BlankField(sch, sid, x, i)
  }

  // ------------------------------------------- pb_check_proto3_default_value

  lemma {:induction false} DefaultIsBlank(sch: Schema, sid: nat, i: nat, data: Slot, size: Slot)
    requires WfSchema(sch) && sid < |sch| && i < |sch[sid]|
    ensures KnownRef(sch, sch[sid][i])
    ensures IsDefault(sch, sch[sid][i], data, size) <==> BlankCell(sch, sch[sid][i], data, size)
    decreases data, 1
  {
    hide Blank, AllDefault;
    var f := sch[sid][i];
    assert WfMessage(sch, sid) && OkField(sch, sid, i);
    if f.ltype.SubMessage? && f.htype.Optional? && f.sizeOffset == 0 && f.atype.Static? {
      AllIsBlank(sch, f.ptr.id, data);
    }
  }

  lemma {:induction false} OneField(sch: Schema, sid: nat, x: Slot, i: nat)
    requires WfSchema(sch) && sid < |sch| && i < |sch[sid]|
    ensures AllDefault(sch, sid, x, i + 1) <==> AllDefault(sch, sid, x, i) && BlankField(sch, sid, x, i)
    decreases x, 0, i
  {
    hide IsDefault, BlankCell;
    assert WfMessage(sch, sid) && OkField(sch, sid, i);
    if x.Sub? && DataAt(sch[sid], i) in x.members {
      DefaultIsBlank(sch, sid, i, x.members[DataAt(sch[sid], i)], CellOf(sch[sid], x.members, i).size);
    }
  }

  lemma {:induction false} EachIsBlank(sch: Schema, sid: nat, x: Slot, n: nat, i: nat)
    requires WfSchema(sch) && sid < |sch| && i < n <= |sch[sid]| && AllDefault(sch, sid, x, n)
    ensures BlankField(sch, sid, x, i)
    decreases x, 0, n
  {
    OneField(sch, sid, x, n - 1);
    if i == n - 1 {
    } else {
      EachIsBlank(sch, sid, x, n - 1, i);
    }
  }

  lemma {:induction false} BlankIsAll(sch: Schema, sid: nat, x: Slot, n: nat)
    requires WfSchema(sch) && sid < |sch| && n <= |sch[sid]| && Blank(sch, sid, x)
    ensures AllDefault(sch, sid, x, n)
    decreases x, 0, n
  {
    if n == 0 {
    } else {
      BlankIsAll(sch, sid, x, n - 1);
      assert BlankField(sch, sid, x, n - 1);
      OneField(sch, sid, x, n - 1);
    }
  }

  lemma {:induction false} AllIsBlank(sch: Schema, sid: nat, x: Slot)
    requires WfSchema(sch) && sid < |sch|
    ensures AllDefault(sch, sid, x, |sch[sid]|) <==> Blank(sch, sid, x)
    decreases x, 0, |sch[sid]| + 1
  {
    var n := |sch[sid]|;
    if AllDefault(sch, sid, x, n) {
      forall i | 0 <= i < n ensures BlankField(sch, sid, x, i) {
        EachIsBlank(sch, sid, x, n, i);
      }
    }
    if Blank(sch, sid, x) {
      BlankIsAll(sch, sid, x, n);
    }
  }

  // ------------------------------------------------------- what is left out

  lemma KeyNotEmpty(wire: nat, tag: nat)
    ensures |EncKey(wire, tag)| >= 1
  {
  }

  lemma TaggedNotEmpty(sch: Schema, f: Field, x: Slot)
    requires WfSchema(sch) && KnownRef(sch, f)
    ensures EncTagged(sch, f, x).out != [] && EncTarget(sch, f, x).out != []
  {
    hide EncValue, EncKey;
    KeyNotEmpty(WireType(f.ltype), f.tag);
    if x.Block? && x.cells != [] {
      assert |EncTagged(sch, f, x.cells[0]).out| >= 1;
    }
  }

  /** A proto3 field, static and without a has_ member, is left out if and only if its
      value is the zero of its type. */
  lemma ZeroIsLeftOut(sch: Schema, sid: nat, i: nat, data: Slot, size: Slot)
    requires WfSchema(sch) && sid < |sch| && i < |sch[sid]|
    requires sch[sid][i].htype.Optional? && sch[sid][i].atype.Static? && sch[sid][i].sizeOffset == 0
    ensures KnownRef(sch, sch[sid][i])
    ensures var e := EncField(sch, sch[sid][i], data, size);
            && (e.out == [] <==> ZeroValue(sch, sch[sid][i], data))
            && (ZeroValue(sch, sch[sid][i], data) ==> e.ok)
  {
    hide IsDefault, EncTagged, ZeroValue;
    DefaultIsBlank(sch, sid, i, data, size);
    TaggedNotEmpty(sch, sch[sid][i], data);
  }

  /** The fields of which nothing is sent. */
  predicate Silent(sch: Schema, f: Field, data: Slot, size: Slot)
    requires WfSchema(sch) && KnownRef(sch, f)
  {
    match f.htype
    case Required => false
    case Optional =>
      if f.sizeOffset != 0 then Number(size) == 0
      else if f.atype.Pointer? then data.Nil?
      else ZeroValue(sch, f, data)
    case Repeated => f.sizeOffset != 0 && Number(size) <= 0
    case OneOf => Number(size) != f.tag
  }

  lemma {:induction false} EntriesNotEmpty(sch: Schema, f: Field, xs: seq<Slot>, n: nat)
    requires WfSchema(sch) && KnownRef(sch, f) && 0 < n
    ensures EncEntries(sch, f, xs, n).ok ==> EncEntries(sch, f, xs, n).out != []
  {
    hide EncTagged, EncTarget;
    if n <= |xs| {
      TaggedNotEmpty(sch, f, xs[n - 1]);
    }
  }

  lemma ArrayNotEmpty(sch: Schema, f: Field, xs: seq<Slot>, n: int)
    requires WfSchema(sch) && KnownRef(sch, f)
    ensures EncArray(sch, f, xs, n) == Emit(true, []) <==> n <= 0
  {
    hide EncEntries, EncScalars, EncKey;
    KeyNotEmpty(WT_STRING, f.tag);
    if n > 0 {
      EntriesNotEmpty(sch, f, xs, n);
    }
  }

  /** Any field: nothing is sent, without an error, exactly when it is absent: has_ is
      false, which_ names another member, the count is zero, the pointer is null, or
      the value is the zero of its type. */
  lemma SilentExactly(sch: Schema, sid: nat, i: nat, data: Slot, size: Slot)
    requires WfSchema(sch) && sid < |sch| && i < |sch[sid]|
    ensures KnownRef(sch, sch[sid][i])
    ensures EncField(sch, sch[sid][i], data, size) == Emit(true, []) <==> Silent(sch, sch[sid][i], data, size)
  {
    hide IsDefault, EncTagged, EncTarget, EncArray, ZeroValue;
    var f := sch[sid][i];
    assert WfMessage(sch, sid) && OkField(sch, sid, i);
    TaggedNotEmpty(sch, f, data);
    ArrayNotEmpty(sch, f, Items(data), ArrayCount(f, size));
    DefaultIsBlank(sch, sid, i, data, size);
  }

  // ------------------------------------------------------------ whole messages

  predicate SilentField(sch: Schema, sid: nat, x: Slot, i: nat)
    requires WfSchema(sch) && sid < |sch| && i < |sch[sid]|
  {
    assert WfMessage(sch, sid) && OkField(sch, sid, i);
    && x.Sub? && DataAt(sch[sid], i) in x.members
    && Silent(sch, sch[sid][i], x.members[DataAt(sch[sid], i)], CellOf(sch[sid], x.members, i).size)
  }

  lemma {:induction false} FieldsSilent(sch: Schema, sid: nat, x: Slot, n: nat)
    requires WfSchema(sch) && sid < |sch| && n <= |sch[sid]|
    ensures EncFields(sch, sid, x, n) == Emit(true, []) <==>
            forall i {:trigger SilentField(sch, sid, x, i)} :: 0 <= i < n ==> SilentField(sch, sid, x, i)
    decreases n
  {
    hide EncField, Silent;
    if n == 0 {
    } else {
      var i := n - 1;
      FieldsSilent(sch, sid, x, i);
      assert WfMessage(sch, sid) && OkField(sch, sid, i);
      if x.Sub? && DataAt(sch[sid], i) in x.members {
        SilentExactly(sch, sid, i, x.members[DataAt(sch[sid], i)], CellOf(sch[sid], x.members, i).size);
      }
      LastSilent(sch, sid, x, i);
    }
  }

  lemma LastSilent(sch: Schema, sid: nat, x: Slot, i: nat)
    requires WfSchema(sch) && sid < |sch| && i < |sch[sid]|
    requires x.Sub? && DataAt(sch[sid], i) in x.members ==>
               KnownRef(sch, sch[sid][i]) &&
               var data, size := x.members[DataAt(sch[sid], i)], CellOf(sch[sid], x.members, i).size;
               EncField(sch, sch[sid][i], data, size) == Emit(true, []) <==> Silent(sch, sch[sid][i], data, size)
    ensures EncFields(sch, sid, x, i + 1) == Emit(true, []) <==>
            EncFields(sch, sid, x, i) == Emit(true, []) && SilentField(sch, sid, x, i)
  {
    hide EncField, Silent;
    assert WfMessage(sch, sid) && OkField(sch, sid, i);
  }

  lemma OneOfWhich(sch: Schema, sid: nat, i: nat, c: Cell)
    requires WfSchema(sch) && sid < |sch| && i < |sch[sid]| && ValidCell(sch, sid, i, c) && sch[sid][i].htype.OneOf?
    ensures c.size.Num? && ValidWhich(sch[sid], i, c.size.n)
  {
    hide ValidItem, ValidTarget, ValidWhich;
    if sch[sid][i].atype.Pointer? {
      assert ValidPointer(sch, sid, i, c);
    } else {
      assert ValidStatic(sch, sid, i, c);
    }
  }

  /** A union of a valid struct is empty if no member of it is sent. */
  lemma UnionIsEmpty(sch: Schema, sid: nat, x: Slot, i: nat)
    requires WfSchema(sch) && sid < |sch| && i < |sch[sid]| && ValidStruct(sch, sid, x) && sch[sid][i].htype.OneOf?
    requires forall k {:trigger SilentField(sch, sid, x, k)} :: 0 <= k < |sch[sid]| ==> SilentField(sch, sid, x, k)
    ensures Number(CellOf(sch[sid], x.members, i).size) == 0
  {
    hide ValidItem, ValidTarget;
    var c := CellOf(sch[sid], x.members, i);
    assert ValidField(sch, sid, x, i) && WfMessage(sch, sid) && OkField(sch, sid, i);
    OneOfWhich(sch, sid, i, c);
    if c.size.n != 0 {
      var k :| 0 <= k < |sch[sid]| && UnionHead(sch[sid], k) == UnionHead(sch[sid], i) && sch[sid][k].tag == c.size.n;
      UnionCell(sch, sid, x.members, i, k);
      if k != i {
        OneOfHead(sch[sid], i, k);
      }
      assert SilentField(sch, sid, x, k);
    }
  }

  /** A valid message is encoded as nothing exactly when nothing is in it; so a proto3
      submessage is left out exactly when its encoding would be empty. */
  lemma BlankIsEmpty(sch: Schema, sid: nat, x: Slot)
    requires WfSchema(sch) && sid < |sch| && ValidStruct(sch, sid, x)
    ensures EncMessage(sch, sid, x) == Emit(true, []) <==> Blank(sch, sid, x)
  {
    hide EncFields, ZeroValue, ValidItem, ValidTarget;
    FieldsSilent(sch, sid, x, |sch[sid]|);
    if Blank(sch, sid, x) {
      forall i | 0 <= i < |sch[sid]| ensures SilentField(sch, sid, x, i) {
        BlankIsSilent(sch, sid, x, i);
      }
    }
    if EncMessage(sch, sid, x) == Emit(true, []) {
      forall i | 0 <= i < |sch[sid]| ensures BlankField(sch, sid, x, i) {
        assert SilentField(sch, sid, x, i) && ValidField(sch, sid, x, i);
        NotNegative(sch, sid, x, i);
        if sch[sid][i].htype.OneOf? {
          UnionIsEmpty(sch, sid, x, i);
        }
      }
    }
  }

  lemma BlankIsSilent(sch: Schema, sid: nat, x: Slot, i: nat)
    requires WfSchema(sch) && sid < |sch| && i < |sch[sid]| && ValidStruct(sch, sid, x) && Blank(sch, sid, x)
    ensures SilentField(sch, sid, x, i)
  {
    assert BlankField(sch, sid, x, i) && ValidField(sch, sid, x, i);
    assert WfMessage(sch, sid) && OkField(sch, sid, i);
    var f, data, size := sch[sid][i], x.members[DataAt(sch[sid], i)], CellOf(sch[sid], x.members, i).size;
    assert BlankCell(sch, f, data, size);
    CellIsSilent(sch, sid, i, data, size);
  }

  lemma CellIsSilent(sch: Schema, sid: nat, i: nat, data: Slot, size: Slot)
    requires WfSchema(sch) && sid < |sch| && i < |sch[sid]| && KnownRef(sch, sch[sid][i])
    requires BlankCell(sch, sch[sid][i], data, size)
    ensures Silent(sch, sch[sid][i], data, size)
  {
    assert WfMessage(sch, sid) && OkField(sch, sid, i);
  }

  lemma NotNegative(sch: Schema, sid: nat, x: Slot, i: nat)
    requires WfSchema(sch) && sid < |sch| && i < |sch[sid]| && ValidField(sch, sid, x, i)
    ensures sch[sid][i].htype.Repeated? && sch[sid][i].sizeOffset != 0 ==>
              0 <= Number(CellOf(sch[sid], x.members, i).size)
  {
    hide ValidItems;
    var c := CellOf(sch[sid], x.members, i);
    assert WfMessage(sch, sid) && OkField(sch, sid, i);
    if sch[sid][i].atype.Pointer? {
      assert ValidPointer(sch, sid, i, c);
    } else {
      assert ValidStatic(sch, sid, i, c);
    }
  }

  /** Zeroed memory holds the zero of every type. */
  lemma {:induction false} ZeroedIsZero(sch: Schema, sid: nat, i: nat)
    requires WfSchema(sch) && sid < |sch| && i < |sch[sid]| && sch[sid][i].atype.Static?
    ensures KnownRef(sch, sch[sid][i])
    ensures match sch[sid][i].ltype
            case FixedLengthBytes => ZeroItem(sch, sid, i) == Buf(seq(sch[sid][i].dataSize, _ => 0))
            case SubMessage => ZeroItem(sch, sid, i).Sub?
            case _ => ZeroValue(sch, sch[sid][i], ZeroItem(sch, sid, i))
  {
    assert WfMessage(sch, sid) && OkField(sch, sid, i);
  }
}
