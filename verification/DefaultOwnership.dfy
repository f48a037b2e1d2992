/** What default values and zeroed structs own: nothing but what the entries of static
    arrays already held, which are not initialised. */
module DefaultOwnership {
  import opened Descriptor
  import opened Defaults
  import opened Release
  import opened Ownership
  import opened UnionOwnership
  import opened ReleaseOwnership

  /** Statically nested submessages are structs, and the entries of a static array that
      may own blocks are there and sound. Anything may be in the other fields. */
  predicate LaidOutCell(sch: Schema, sid: nat, i: nat, data: Slot)
    requires WfSchema(sch) && sid < |sch| && i < |sch[sid]|
    decreases sid, 0
  {
    var f := sch[sid][i];
    assert WfMessage(sch, sid) && OkField(sch, sid, i);
    if NestedStruct(f) then data.Sub? && LaidOut(sch, f.ptr.id, data.members)
    else PointerArray(sch, f) ==>
           data.Arr? && |data.items| == f.arraySize && SoundEntries(sch, f, data.items, |data.items|)
  }

  predicate LaidOut(sch: Schema, sid: nat, m: Store)
    requires WfSchema(sch) && sid < |sch|
    decreases sid, 1
  {
    forall i {:trigger LaidOutCell(sch, sid, i, CellOf(sch[sid], m, i).data)} ::
      0 <= i < |sch[sid]| ==> LaidOutCell(sch, sid, i, CellOf(sch[sid], m, i).data)
  }

  predicate NestedStruct(f: Field) {
    f.atype.Static? && f.ltype.SubMessage? && !f.htype.Repeated? && !f.htype.OneOf?
  }

  /** The blocks that initialising a struct leaves in it: those of the entries of static
      arrays, at any depth of static nesting. */
  function LastingCell(sch: Schema, sid: nat, i: nat, data: Slot): multiset<nat>
    requires WfSchema(sch) && sid < |sch| && i < |sch[sid]|
    decreases sid, 0, 0
  {
    var f := sch[sid][i];
    assert WfMessage(sch, sid) && OkField(sch, sid, i);
    if NestedStruct(f) then LastingFields(sch, f.ptr.id, Members(data), |sch[f.ptr.id]|)
    else if PointerArray(sch, f) then IdsEntries(Stored, sch, f, Items(data), f.arraySize)
    else multiset{}
  }

  function LastingFields(sch: Schema, sid: nat, m: Store, n: nat): multiset<nat>
    requires WfSchema(sch) && sid < |sch| && n <= |sch[sid]|
    decreases sid, 1, n
  {
    if n == 0 then multiset{}
    else LastingFields(sch, sid, m, n - 1) + LastingCell(sch, sid, n - 1, CellOf(sch[sid], m, n - 1).data)
  }

  function Lasting(sch: Schema, sid: nat, m: Store): multiset<nat>
    requires WfSchema(sch) && sid < |sch|
  {
    LastingFields(sch, sid, m, |sch[sid]|)
  }

  lemma LastingIsOwned(sch: Schema, sid: nat, src: Slot, i: nat)
    requires WfSchema(sch) && sid < |sch| && i < |sch[sid]| && SoundStruct(sch, sid, src)
    ensures LaidOutCell(sch, sid, i, CellOf(sch[sid], src.members, i).data)
    ensures LastingCell(sch, sid, i, CellOf(sch[sid], src.members, i).data) <=
            IdsField(Stored, sch, sid, src.members, i)
    decreases sid, 0
  {
    var f := sch[sid][i];
    assert WfMessage(sch, sid) && OkField(sch, sid, i) && SoundField(sch, sid, src, i);
    var data, size := src.members[DataAt(sch[sid], i)], CellOf(sch[sid], src.members, i).size;
    assert SoundCell(sch, f, data, size);
    if NestedStruct(f) {
      assert SoundDest(sch, f, data) && IdsCell(Stored, sch, f, data, size) == IdsDest(Stored, sch, f, data);
      SoundIsLaidOut(sch, f.ptr.id, data);
    } else if PointerArray(sch, f) {
      assert SoundArray(sch, f, data, size);
    }
  }

  lemma {:induction false} LastingBelow(sch: Schema, sid: nat, src: Slot, n: nat)
    requires WfSchema(sch) && sid < |sch| && n <= |sch[sid]| && SoundStruct(sch, sid, src)
    ensures LastingFields(sch, sid, src.members, n) <= IdsFields(Stored, sch, sid, src, n)
    decreases sid, 1, n
  {
    hide IdsField, LastingCell;
    if n == 0 {
    } else {
      LastingBelow(sch, sid, src, n - 1);
      LastingIsOwned(sch, sid, src, n - 1);
      assert src == Sub(src.members);
      IdsFieldsStep(Stored, sch, sid, src.members, n - 1);
    }
  }

  /** A sound struct may be initialised again; what it keeps then was its own. */
  lemma {:induction false} SoundIsLaidOut(sch: Schema, sid: nat, src: Slot)
    requires WfSchema(sch) && sid < |sch| && SoundStruct(sch, sid, src)
    ensures LaidOut(sch, sid, src.members) && Lasting(sch, sid, src.members) <= IdsStruct(Stored, sch, sid, src)
    decreases sid, 2
  {
    forall i | 0 <= i < |sch[sid]| ensures LaidOutCell(sch, sid, i, CellOf(sch[sid], src.members, i).data) {
      LastingIsOwned(sch, sid, src, i);
    }
    LastingBelow(sch, sid, src, |sch[sid]|);
  }

  /** How far `pb_message_set_to_defaults` has got with field `i`. */
  predicate Defaulting(sch: Schema, sid: nat, was: Store, m: Store, n: nat, i: nat)
    requires WfSchema(sch) && sid < |sch| && i < |sch[sid]|
  {
    var lasting := LastingCell(sch, sid, i, CellOf(sch[sid], was, i).data);
    if i < n then
      && SoundField(sch, sid, Sub(m), i) && (sch[sid][i].htype.OneOf? ==> CellOf(sch[sid], m, i).size == Num(0))
      && IdsField(Stored, sch, sid, m, i) == lasting
    else
      && LaidOutCell(sch, sid, i, CellOf(sch[sid], m, i).data)
      && LastingCell(sch, sid, i, CellOf(sch[sid], m, i).data) == lasting
  }

  /** A field that is not a statically nested submessage: null, a number or bytes. */
  lemma PlainDefault(sch: Schema, sid: nat, j: nat, was: Cell)
    requires WfSchema(sch) && sid < |sch| && j < |sch[sid]| && !NestedStruct(sch[sid][j])
    requires LaidOutCell(sch, sid, j, was.data)
    ensures var f, c := sch[sid][j], DefaultCell(sch, sid, j, was);
            && KnownRef(sch, f) && SoundCell(sch, f, c.data, NormalCell(f, c).size)
            && IdsCell(Stored, sch, f, c.data, NormalCell(f, c).size) == LastingCell(sch, sid, j, was.data)
  {
    var f, c := sch[sid][j], DefaultCell(sch, sid, j, was);
    assert WfMessage(sch, sid) && OkField(sch, sid, j);
    var size := NormalCell(f, c).size;
    if f.htype.OneOf? {
      assert Inactive(f, size);
    } else if PointerArray(sch, f) {
      assert c == Cell(was.data, Num(0)) && SoundArray(sch, f, was.data, size);
    } else if f.atype.Static? && !f.htype.Repeated? {
      assert SoundDest(sch, f, c.data) && IdsDest(Stored, sch, f, c.data) == multiset{};
    }
  }

  lemma {:induction false} DefaultIsSound(sch: Schema, sid: nat, was: Store, m: Store, j: nat)
    requires WfSchema(sch) && sid < |sch| && j < |sch[sid]| && Defaulting(sch, sid, was, m, j, j)
    ensures var c := DefaultCell(sch, sid, j, CellOf(sch[sid], m, j));
            Defaulting(sch, sid, was, PutCell(sch[sid], m, j, c), j + 1, j)
    decreases sid, 0, 0
  {
    var f := sch[sid][j];
    assert WfMessage(sch, sid) && OkField(sch, sid, j);
    var c := DefaultCell(sch, sid, j, CellOf(sch[sid], m, j));
    PutThenGet(sch, sid, m, j, c);
    if NestedStruct(f) {
      var sub := CellOf(sch[sid], m, j).data.members;
      DefaultsSound(sch, f.ptr.id, sub);
      assert c.data == DefaultData(sch, sid, j, CellOf(sch[sid], m, j).data) == Sub(Initialised(sch, f.ptr.id, sub));
      assert SoundDest(sch, f, c.data) && IdsDest(Stored, sch, f, c.data) == IdsStruct(Stored, sch, f.ptr.id, c.data);
    } else {
      PlainDefault(sch, sid, j, CellOf(sch[sid], m, j));
    }
  }

  lemma SiblingDefault(sch: Schema, sid: nat, was: Store, m: Store, j: nat, i: nat)
    requires WfSchema(sch) && sid < |sch| && j < |sch[sid]| && i < |sch[sid]| && i != j
    requires UnionHead(sch[sid], i) == UnionHead(sch[sid], j) && Defaulting(sch, sid, was, m, j, i)
    ensures var c := DefaultCell(sch, sid, j, CellOf(sch[sid], m, j));
            Defaulting(sch, sid, was, PutCell(sch[sid], m, j, c), j + 1, i)
  {
    var fs := sch[sid];
    assert WfMessage(sch, sid) && OkField(sch, sid, i) && OkField(sch, sid, j);
    OneOfHead(fs, i, j);
    var c := DefaultCell(sch, sid, j, CellOf(fs, m, j));
    PutThenGet(sch, sid, m, j, c);
    UnionCell(sch, sid, m, i, j);
    UnionCell(sch, sid, PutCell(fs, m, j, c), i, j);
    SameUnionData(fs, i, j);
  }

  lemma DefaultElsewhere(sch: Schema, sid: nat, was: Store, m: Store, j: nat, c: Cell, i: nat)
    requires WfSchema(sch) && sid < |sch| && j < |sch[sid]| && i < |sch[sid]|
    requires UnionHead(sch[sid], i) != UnionHead(sch[sid], j) && Defaulting(sch, sid, was, m, j, i)
    ensures Defaulting(sch, sid, was, PutCell(sch[sid], m, j, c), j + 1, i)
  {
    assert WfMessage(sch, sid);
    PutElsewhere(sch, sid, m, j, c, i);
    PutKeys(sch, sid, m, j, c, i);
  }

  lemma {:induction false} DefaultsOwn(sch: Schema, sid: nat, m: Store, n: nat, i: nat)
    requires WfSchema(sch) && sid < |sch| && n <= |sch[sid]| && i < |sch[sid]| && LaidOut(sch, sid, m)
    ensures Defaulting(sch, sid, m, SetDefaults(sch, sid, m, n), n, i)
    decreases sid, 1, n
  {
    hide Defaulting, DefaultCell;
    if n == 0 {
      assert LaidOutCell(sch, sid, i, CellOf(sch[sid], m, i).data);
      NotYet(sch, sid, m, i);
    } else {
      var j := n - 1;
      var m1 := SetDefaults(sch, sid, m, j);
      assert WfMessage(sch, sid);
      DefaultsOwn(sch, sid, m, j, i);
      DefaultsOwn(sch, sid, m, j, j);
      if i == j {
        DefaultIsSound(sch, sid, m, m1, j);
      } else if UnionHead(sch[sid], i) == UnionHead(sch[sid], j) {
        SiblingDefault(sch, sid, m, m1, j, i);
      } else {
        DefaultElsewhere(sch, sid, m, m1, j, DefaultCell(sch, sid, j, CellOf(sch[sid], m1, j)), i);
      }
    }
  }

  lemma NotYet(sch: Schema, sid: nat, m: Store, i: nat)
    requires WfSchema(sch) && sid < |sch| && i < |sch[sid]| && LaidOutCell(sch, sid, i, CellOf(sch[sid], m, i).data)
    ensures Defaulting(sch, sid, m, m, 0, i)
  {
  }

  lemma {:induction false} LastingSum(sch: Schema, sid: nat, was: Store, m: Store, n: nat, all: nat)
    requires WfSchema(sch) && sid < |sch| && n <= all <= |sch[sid]|
    requires forall i {:trigger Defaulting(sch, sid, was, m, all, i)} :: 0 <= i < n ==>
               Defaulting(sch, sid, was, m, all, i)
    ensures IdsFields(Stored, sch, sid, Sub(m), n) == LastingFields(sch, sid, was, n)
    decreases n
  {
    hide IdsField, IdsCell, LastingCell, SoundField;
    if n == 0 {
    } else {
      LastingSum(sch, sid, was, m, n - 1, all);
      assert Defaulting(sch, sid, was, m, all, n - 1);
      IdsFieldsStep(Stored, sch, sid, m, n - 1);
    }
  }

  /** A struct at its defaults is sound and owns what the entries of its static arrays
      held before. */
  lemma {:induction false} DefaultsSound(sch: Schema, sid: nat, m: Store)
    requires WfSchema(sch) && sid < |sch| && LaidOut(sch, sid, m)
    ensures SoundStruct(sch, sid, Sub(Initialised(sch, sid, m)))
    ensures IdsStruct(Stored, sch, sid, Sub(Initialised(sch, sid, m))) == Lasting(sch, sid, m)
    decreases sid, 2, 0
  {
    var n, m1 := |sch[sid]|, Initialised(sch, sid, m);
    forall i | 0 <= i < n ensures Defaulting(sch, sid, m, m1, n, i) && SoundField(sch, sid, Sub(m1), i) {
      DefaultsOwn(sch, sid, m, n, i);
    }
    LastingSum(sch, sid, m, m1, n, n);
  }

  /** A sound field that owns nothing. */
  predicate BareField(sch: Schema, sid: nat, m: Store, i: nat)
    requires WfSchema(sch) && sid < |sch| && i < |sch[sid]|
  {
    SoundField(sch, sid, Sub(m), i) && IdsField(Stored, sch, sid, m, i) == multiset{}
  }

  lemma {:induction false} BareOwnsNothing(sch: Schema, sid: nat, m: Store, n: nat)
    requires WfSchema(sch) && sid < |sch| && n <= |sch[sid]|
    requires forall i {:trigger BareField(sch, sid, m, i)} :: 0 <= i < n ==> BareField(sch, sid, m, i)
    ensures IdsFields(Stored, sch, sid, Sub(m), n) == multiset{}
  {
    hide IdsField, IdsCell, SoundField;
    if n == 0 {
    } else {
      BareOwnsNothing(sch, sid, m, n - 1);
      assert BareField(sch, sid, m, n - 1);
      IdsFieldsStep(Stored, sch, sid, m, n - 1);
    }
  }

  lemma BareIsSound(sch: Schema, sid: nat, m: Store)
    requires WfSchema(sch) && sid < |sch|
    requires forall i {:trigger BareField(sch, sid, m, i)} :: 0 <= i < |sch[sid]| ==> BareField(sch, sid, m, i)
    ensures SoundStruct(sch, sid, Sub(m)) && IdsStruct(Stored, sch, sid, Sub(m)) == multiset{}
  {
    BareOwnsNothing(sch, sid, m, |sch[sid]|);
    forall i | 0 <= i < |sch[sid]| ensures SoundField(sch, sid, Sub(m), i) {
      assert BareField(sch, sid, m, i);
    }
  }

  /** Zeroed memory owns nothing. */
  lemma {:induction false} ZeroItemEmpty(sch: Schema, sid: nat, i: nat)
    requires WfSchema(sch) && sid < |sch| && i < |sch[sid]| && sch[sid][i].atype.Static?
    ensures KnownRef(sch, sch[sid][i])
    ensures SoundDest(sch, sch[sid][i], ZeroItem(sch, sid, i))
    ensures IdsDest(Stored, sch, sch[sid][i], ZeroItem(sch, sid, i)) == multiset{}
    decreases sid, 0, 0
  {
    var f := sch[sid][i];
    assert WfMessage(sch, sid) && OkField(sch, sid, i);
    if f.ltype.SubMessage? {
      var id := f.ptr.id;
      var zero := ZeroStruct(sch, id, |sch[id]|);
      forall e | 0 <= e < |sch[id]| ensures BareField(sch, id, zero, e) {
        ZeroFieldEmpty(sch, id, |sch[id]|, e);
      }
      BareIsSound(sch, id, zero);
    }
  }

  lemma {:induction false} ZeroCellEmpty(sch: Schema, sid: nat, i: nat)
    requires WfSchema(sch) && sid < |sch| && i < |sch[sid]|
    ensures KnownRef(sch, sch[sid][i]) && SoundWhich(sch[sid], i, NormalCell(sch[sid][i], ZeroCell(sch, sid, i)).size)
    ensures var c := ZeroCell(sch, sid, i);
            && SoundCell(sch, sch[sid][i], c.data, NormalCell(sch[sid][i], c).size)
            && IdsCell(Stored, sch, sch[sid][i], c.data, NormalCell(sch[sid][i], c).size) == multiset{}
    decreases sid, 1, 0
  {
    var f := sch[sid][i];
    assert WfMessage(sch, sid) && OkField(sch, sid, i);
    var c := ZeroCell(sch, sid, i);
    if f.htype.OneOf? {
      assert Inactive(f, c.size);
    } else if f.atype.Static? {
      ZeroItemEmpty(sch, sid, i);
      if PointerArray(sch, f) {
        assert SoundArray(sch, f, c.data, NormalCell(f, c).size);
        EmptyEntries(Stored, sch, f, c.data.items, f.arraySize);
      }
    }
  }

  lemma {:induction false} ZeroFieldEmpty(sch: Schema, sid: nat, n: nat, i: nat)
    requires WfSchema(sch) && sid < |sch| && i < n <= |sch[sid]|
    ensures BareField(sch, sid, ZeroStruct(sch, sid, n), i)
    decreases sid, 2, n
  {
    var fs, j := sch[sid], n - 1;
    assert WfMessage(sch, sid) && OkField(sch, sid, i);
    var m1, c := ZeroStruct(sch, sid, j), ZeroCell(sch, sid, j);
    ZeroCellEmpty(sch, sid, j);
    if i == j {
      PutThenGet(sch, sid, m1, j, c);
    } else if UnionHead(fs, i) == UnionHead(fs, j) {
      OneOfHead(fs, i, j);
      SameUnionData(fs, i, j);
      PutThenGet(sch, sid, m1, j, c);
      UnionCell(sch, sid, PutCell(fs, m1, j, c), i, j);
    } else {
      PutElsewhere(sch, sid, m1, j, c, i);
      ZeroFieldEmpty(sch, sid, j, i);
      DisjointStorage(sch, sid, i, j);
    }
  }

  /** A zeroed struct may be decoded into. */
  lemma ZeroIsEmpty(sch: Schema, sid: nat)
    requires WfSchema(sch) && sid < |sch|
    ensures var zero := ZeroStruct(sch, sid, |sch[sid]|);
            && SoundStruct(sch, sid, Sub(zero)) && IdsStruct(Stored, sch, sid, Sub(zero)) == multiset{}
            && LaidOut(sch, sid, zero) && Lasting(sch, sid, zero) == multiset{}
  {
    var n := |sch[sid]|;
    var zero := ZeroStruct(sch, sid, n);
    forall e | 0 <= e < n ensures BareField(sch, sid, zero, e) {
      ZeroFieldEmpty(sch, sid, n, e);
    }
    BareIsSound(sch, sid, zero);
    SoundIsLaidOut(sch, sid, Sub(zero));
  }

  /** A zeroed and initialised struct owns nothing. */
  lemma FreshIsEmpty(sch: Schema, sid: nat)
    requires WfSchema(sch) && sid < |sch|
    ensures SoundStruct(sch, sid, FreshStruct(sch, sid))
    ensures IdsStruct(Stored, sch, sid, FreshStruct(sch, sid)) == multiset{}
  {
    ZeroIsEmpty(sch, sid);
    DefaultsSound(sch, sid, ZeroStruct(sch, sid, |sch[sid]|));
  }
}
