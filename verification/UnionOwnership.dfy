/** A struct as the cells of its fields, the members of a union sharing one: what
    one cell owns, and what the rest of the struct owns. */
module UnionOwnership {
  import opened Descriptor
  import opened FieldIterator
  import opened Release
  import opened Ownership

  /** The field whose value the cell of field `i` holds: the current member of a
      union, |fs| while it is empty. */
  function Holder(fs: seq<Field>, i: nat, size: Slot): (j: nat)
    requires i < |fs|
    ensures j <= |fs|
  {
    if !fs[i].htype.OneOf? then i
    else if Number(size) > 0 then FirstMatch(fs, Number(size), 0)
    else |fs|
  }

  /** The blocks the cell of field `i` owns. */
  function IdsGroup(w: View, sch: Schema, sid: nat, i: nat, c: Cell): multiset<nat>
    requires WfSchema(sch) && sid < |sch| && i < |sch[sid]|
  {
    var j := Holder(sch[sid], i, c.size);
    if j == |sch[sid]| then multiset{}
    else
      assert WfMessage(sch, sid) && OkField(sch, sid, j);
      IdsCell(w, sch, sch[sid][j], c.data, c.size)
  }

  predicate SoundMember(sch: Schema, sid: nat, k: nat, c: Cell)
    requires WfSchema(sch) && sid < |sch| && k < |sch[sid]|
  {
    assert WfMessage(sch, sid) && OkField(sch, sid, k);
    SoundCell(sch, sch[sid][k], c.data, c.size)
  }

  /** The cell is sound for every field that shares it. */
  predicate SoundGroup(sch: Schema, sid: nat, i: nat, c: Cell)
    requires WfSchema(sch) && sid < |sch| && i < |sch[sid]|
  {
    && SoundWhich(sch[sid], i, c.size)
    && forall k {:trigger SoundMember(sch, sid, k, c)} ::
         0 <= k < |sch[sid]| && UnionHead(sch[sid], k) == UnionHead(sch[sid], i) ==> SoundMember(sch, sid, k, c)
  }

  /** The blocks of field `k` of a struct. */
  function IdsField(w: View, sch: Schema, sid: nat, m: Store, k: nat): multiset<nat>
    requires WfSchema(sch) && sid < |sch| && k < |sch[sid]|
  {
    assert WfMessage(sch, sid) && OkField(sch, sid, k);
    if DataAt(sch[sid], k) in m then IdsCell(w, sch, sch[sid][k], m[DataAt(sch[sid], k)], CellOf(sch[sid], m, k).size)
    else multiset{}
  }

  /** The blocks of the fields before `n` that do not share the cell of field `i`. */
  function Outside(w: View, sch: Schema, sid: nat, m: Store, n: nat, i: nat): multiset<nat>
    requires WfSchema(sch) && sid < |sch| && n <= |sch[sid]| && i < |sch[sid]|
  {
    if n == 0 then multiset{}
    else
      Outside(w, sch, sid, m, n - 1, i) +
      (if UnionHead(sch[sid], n - 1) != UnionHead(sch[sid], i) then IdsField(w, sch, sid, m, n - 1) else multiset{})
  }

  lemma HolderInUnion(sch: Schema, sid: nat, i: nat, c: Cell)
    requires WfSchema(sch) && sid < |sch| && i < |sch[sid]| && SoundWhich(sch[sid], i, c.size)
    ensures var j := Holder(sch[sid], i, c.size);
            j < |sch[sid]| ==> UnionHead(sch[sid], j) == UnionHead(sch[sid], i) &&
                               (sch[sid][i].htype.OneOf? ==> sch[sid][j].htype.OneOf? && sch[sid][j].tag == c.size.n)
  {
    var fs := sch[sid];
    var j := Holder(fs, i, c.size);
    if j < |fs| && fs[i].htype.OneOf? {
      FirstMatchExact(fs, c.size.n, 0);
      if i != j {
        OneOfHead(fs, i, j);
      }
    }
  }

  /** Of the fields that share a cell, only the holder owns anything. */
  lemma OnlyHolderOwns(w: View, sch: Schema, sid: nat, i: nat, k: nat, c: Cell)
    requires WfSchema(sch) && sid < |sch| && i < |sch[sid]| && k < |sch[sid]| && SoundWhich(sch[sid], i, c.size)
    requires UnionHead(sch[sid], k) == UnionHead(sch[sid], i) && k != Holder(sch[sid], i, c.size)
    ensures KnownRef(sch, sch[sid][k]) && IdsCell(w, sch, sch[sid][k], c.data, c.size) == multiset{}
  {
    var fs := sch[sid];
    assert WfMessage(sch, sid) && OkField(sch, sid, k);
    HolderInUnion(sch, sid, i, c);
    var j := Holder(fs, i, c.size);
    if i != k {
      OneOfHead(fs, i, k);
    }
    if j < |fs| {
      assert TagsDiffer(fs, if j < k then j else k, if j < k then k else j);
    }
    assert Inactive(fs[k], c.size);
  }

  /** The blocks of the cell, once its holder is among the first fields. */
  function Held(b: bool, ids: multiset<nat>): multiset<nat> {
    if b then ids else multiset{}
  }

  /** Fields that share a cell: together they own what the cell does. */
  lemma SharedField(w: View, sch: Schema, sid: nat, m: Store, k: nat, i: nat)
    requires WfSchema(sch) && sid < |sch| && i < |sch[sid]| && k < |sch[sid]| && DataAt(sch[sid], i) in m
    requires SoundWhich(sch[sid], i, CellOf(sch[sid], m, i).size)
    requires UnionHead(sch[sid], k) == UnionHead(sch[sid], i)
    ensures var c := CellOf(sch[sid], m, i);
            IdsField(w, sch, sid, m, k) == Held(k == Holder(sch[sid], i, c.size), IdsGroup(w, sch, sid, i, c))
  {
    var c := CellOf(sch[sid], m, i);
    assert WfMessage(sch, sid);
    UnionCell(sch, sid, m, k, i);
    SameUnionData(sch[sid], k, i);
    if k != Holder(sch[sid], i, c.size) {
      OnlyHolderOwns(w, sch, sid, i, k, c);
    }
  }

  lemma IdsFieldsStep(w: View, sch: Schema, sid: nat, m: Store, n: nat)
    requires WfSchema(sch) && sid < |sch| && n < |sch[sid]|
    ensures IdsFields(w, sch, sid, Sub(m), n + 1) == IdsFields(w, sch, sid, Sub(m), n) + IdsField(w, sch, sid, m, n)
  {
  }

  lemma OutsideStep(w: View, sch: Schema, sid: nat, m: Store, n: nat, i: nat)
    requires WfSchema(sch) && sid < |sch| && n < |sch[sid]| && i < |sch[sid]|
    ensures UnionHead(sch[sid], n) != UnionHead(sch[sid], i) ==>
              Outside(w, sch, sid, m, n + 1, i) == Outside(w, sch, sid, m, n, i) + IdsField(w, sch, sid, m, n)
    ensures UnionHead(sch[sid], n) == UnionHead(sch[sid], i) ==>
              Outside(w, sch, sid, m, n + 1, i) == Outside(w, sch, sid, m, n, i)
  {
    hide IdsField;
    AddNothing(Outside(w, sch, sid, m, n, i));
  }

  lemma HeldStep(before: multiset<nat>, group: multiset<nat>, j: nat, k: nat)
    ensures (before + Held(j < k, group)) + Held(k == j, group) == before + Held(j < k + 1, group)
  {
  }

  lemma SplitNothing(w: View, sch: Schema, sid: nat, m: Store, i: nat, group: multiset<nat>)
    requires WfSchema(sch) && sid < |sch| && i < |sch[sid]|
    ensures IdsFields(w, sch, sid, Sub(m), 0) == Outside(w, sch, sid, m, 0, i) + Held(false, group)
  {
  }

  lemma {:induction false} Split(w: View, sch: Schema, sid: nat, m: Store, n: nat, i: nat)
    requires WfSchema(sch) && sid < |sch| && n <= |sch[sid]| && i < |sch[sid]| && DataAt(sch[sid], i) in m
    requires SoundWhich(sch[sid], i, CellOf(sch[sid], m, i).size)
    ensures var c := CellOf(sch[sid], m, i);
            IdsFields(w, sch, sid, Sub(m), n) ==
            Outside(w, sch, sid, m, n, i) + Held(Holder(sch[sid], i, c.size) < n, IdsGroup(w, sch, sid, i, c))
  {
    hide IdsFields, IdsField, IdsGroup, Holder, UnionHead, Outside, Held, SoundWhich, WfSchema, CellOf, DataAt;
    if n == 0 {
      SplitNothing(w, sch, sid, m, i, IdsGroup(w, sch, sid, i, CellOf(sch[sid], m, i)));
    } else {
      var fs, k := sch[sid], n - 1;
      var c := CellOf(fs, m, i);
      var before, group, j := Outside(w, sch, sid, m, k, i), IdsGroup(w, sch, sid, i, c), Holder(fs, i, c.size);
      Split(w, sch, sid, m, k, i);
      IdsFieldsStep(w, sch, sid, m, k);
      OutsideStep(w, sch, sid, m, k, i);
      if UnionHead(fs, k) == UnionHead(fs, i) {
        SharedField(w, sch, sid, m, k, i);
        HeldStep(before, group, j, k);
      } else {
        NotHolder(sch, sid, m, i, k);
        Exchange(before, Held(j < k, group), IdsField(w, sch, sid, m, k));
      }
    }
  }

  lemma NotHolder(sch: Schema, sid: nat, m: Store, i: nat, k: nat)
    requires WfSchema(sch) && sid < |sch| && i < |sch[sid]| && k < |sch[sid]|
    requires SoundWhich(sch[sid], i, CellOf(sch[sid], m, i).size) && UnionHead(sch[sid], k) != UnionHead(sch[sid], i)
    ensures Holder(sch[sid], i, CellOf(sch[sid], m, i).size) != k
  {
    HolderInUnion(sch, sid, i, CellOf(sch[sid], m, i));
  }

  /** What a struct owns: the blocks of one cell and the blocks outside it. */
  lemma SplitStruct(w: View, sch: Schema, sid: nat, m: Store, i: nat)
    requires WfSchema(sch) && sid < |sch| && i < |sch[sid]| && DataAt(sch[sid], i) in m
    requires SoundWhich(sch[sid], i, CellOf(sch[sid], m, i).size)
    ensures IdsStruct(w, sch, sid, Sub(m)) ==
            Outside(w, sch, sid, m, |sch[sid]|, i) + IdsGroup(w, sch, sid, i, CellOf(sch[sid], m, i))
  {
    Split(w, sch, sid, m, |sch[sid]|, i);
  }

  lemma {:induction false} OutsideUntouched(w: View, sch: Schema, sid: nat, m: Store, i: nat, c: Cell, n: nat)
    requires WfSchema(sch) && sid < |sch| && n <= |sch[sid]| && i < |sch[sid]|
    ensures Outside(w, sch, sid, PutCell(sch[sid], m, i, c), n, i) == Outside(w, sch, sid, m, n, i)
  {
    if n == 0 {
    } else {
      OutsideUntouched(w, sch, sid, m, i, c, n - 1);
      if UnionHead(sch[sid], n - 1) != UnionHead(sch[sid], i) {
        FieldUntouched(w, sch, sid, m, i, c, n - 1);
      }
    }
  }

  lemma FieldUntouched(w: View, sch: Schema, sid: nat, m: Store, i: nat, c: Cell, k: nat)
    requires WfSchema(sch) && sid < |sch| && i < |sch[sid]| && k < |sch[sid]|
    requires UnionHead(sch[sid], k) != UnionHead(sch[sid], i)
    ensures IdsField(w, sch, sid, PutCell(sch[sid], m, i, c), k) == IdsField(w, sch, sid, m, k)
  {
    assert WfMessage(sch, sid);
    PutElsewhere(sch, sid, m, i, c, k);
    PutKeys(sch, sid, m, i, c, k);
  }

  lemma PutKeys(sch: Schema, sid: nat, m: Store, i: nat, c: Cell, k: nat)
    requires WfSchema(sch) && sid < |sch| && i < |sch[sid]| && k < |sch[sid]|
    requires UnionHead(sch[sid], k) != UnionHead(sch[sid], i)
    ensures DataAt(sch[sid], k) in PutCell(sch[sid], m, i, c) <==> DataAt(sch[sid], k) in m
  {
    assert WfMessage(sch, sid);
    DisjointStorage(sch, sid, i, k);
  }

  /** A field without a counter looks at none. */
  lemma NormalIds(w: View, sch: Schema, sid: nat, i: nat, c: Cell)
    requires WfSchema(sch) && sid < |sch| && i < |sch[sid]|
    ensures IdsGroup(w, sch, sid, i, NormalCell(sch[sid][i], c)) == IdsGroup(w, sch, sid, i, c)
    ensures SoundGroup(sch, sid, i, NormalCell(sch[sid][i], c)) <==> SoundGroup(sch, sid, i, c)
  {
    assert WfMessage(sch, sid) && OkField(sch, sid, i);
    var f, n := sch[sid][i], NormalCell(sch[sid][i], c);
    if f.sizeOffset == 0 {
      assert SoundArray(sch, f, c.data, c.size) <==> SoundArray(sch, f, c.data, n.size);
      assert SoundMember(sch, sid, i, c) <==> SoundMember(sch, sid, i, n);
      forall k | 0 <= k < |sch[sid]| && UnionHead(sch[sid], k) == UnionHead(sch[sid], i) ensures k == i {
        if k != i {
          OneOfHead(sch[sid], k, i);
        }
      }
    }
  }

  /** Writing a sound cell keeps the struct sound; it owns the blocks of that cell
      and those it owned elsewhere. */
  lemma PutOwn(w: View, sch: Schema, sid: nat, m: Store, i: nat, c: Cell)
    requires WfSchema(sch) && sid < |sch| && i < |sch[sid]| && SoundStruct(sch, sid, Sub(m))
    requires SoundGroup(sch, sid, i, c)
    ensures SoundStruct(sch, sid, Sub(PutCell(sch[sid], m, i, c)))
    ensures IdsStruct(w, sch, sid, Sub(PutCell(sch[sid], m, i, c))) ==
            Outside(w, sch, sid, m, |sch[sid]|, i) + IdsGroup(w, sch, sid, i, c)
  {
    var fs, m1 := sch[sid], PutCell(sch[sid], m, i, c);
    assert WfMessage(sch, sid);
    PutThenGet(sch, sid, m, i, c);
    NormalIds(w, sch, sid, i, c);
    forall k | 0 <= k < |fs| ensures SoundField(sch, sid, Sub(m1), k) {
      assert SoundField(sch, sid, Sub(m), k);
      PutSound(sch, sid, m, i, c, k);
    }
    assert SoundGroup(sch, sid, i, CellOf(fs, m1, i));
    SplitStruct(w, sch, sid, m1, i);
    OutsideUntouched(w, sch, sid, m, i, c, |fs|);
  }

  lemma PutSound(sch: Schema, sid: nat, m: Store, i: nat, c: Cell, k: nat)
    requires WfSchema(sch) && sid < |sch| && i < |sch[sid]| && k < |sch[sid]| && SoundField(sch, sid, Sub(m), k)
    requires SoundGroup(sch, sid, i, NormalCell(sch[sid][i], c))
    ensures SoundField(sch, sid, Sub(PutCell(sch[sid], m, i, c)), k)
  {
    var fs := sch[sid];
    assert WfMessage(sch, sid) && OkField(sch, sid, k) && OkField(sch, sid, i);
    if UnionHead(fs, k) == UnionHead(fs, i) {
      PutThenGet(sch, sid, m, i, c);
      UnionCell(sch, sid, PutCell(fs, m, i, c), k, i);
      SameUnionData(fs, k, i);
      if k != i {
        OneOfHead(fs, k, i);
      }
      assert SoundMember(sch, sid, k, NormalCell(fs[i], c));
    } else {
      PutElsewhere(sch, sid, m, i, c, k);
      PutKeys(sch, sid, m, i, c, k);
    }
  }

  /** A sound struct has sound cells. */
  lemma CellIsSound(sch: Schema, sid: nat, m: Store, i: nat)
    requires WfSchema(sch) && sid < |sch| && i < |sch[sid]| && SoundStruct(sch, sid, Sub(m))
    ensures SoundGroup(sch, sid, i, CellOf(sch[sid], m, i)) && DataAt(sch[sid], i) in m
  {
    var c := CellOf(sch[sid], m, i);
    assert SoundField(sch, sid, Sub(m), i);
    assert WfMessage(sch, sid);
    forall k | 0 <= k < |sch[sid]| && UnionHead(sch[sid], k) == UnionHead(sch[sid], i)
      ensures SoundMember(sch, sid, k, c)
    {
      assert SoundField(sch, sid, Sub(m), k);
      UnionCell(sch, sid, m, k, i);
    }
  }
}
