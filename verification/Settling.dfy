/** Which records of an encoded struct settle which fields: an emitted field those of
    its union, an omitted one only itself, by its default. */
module Settling {
  import opened Descriptor
  import opened Scalars
  import opened FieldIterator
  import opened Allocator
  import Release
  import opened EncodeSpec
  import D = DecodeSpec
  import opened Structs
  import opened Received

  /** Whether the encoder emits anything for field `i` of a valid struct. */
  predicate Emitted(sch: Schema, f: Field, c: Cell)
    requires WfSchema(sch) && Release.KnownRef(sch, f)
  {
    if f.htype.Repeated? then ArrayCount(f, c.size) > 0 else Present(sch, f, c.data, c.size)
  }

  /** A proto3-style field that is not emitted arrives as its default. */
  lemma {:induction false} OmittedIsDefault(sch: Schema, sid: nat, i: nat, x: Slot, d: Slot)
    requires WfSchema(sch) && sid < |sch| && i < |sch[sid]|
    requires sch[sid][i].htype.Optional? && sch[sid][i].sizeOffset == 0 && sch[sid][i].atype.Static?
    requires ValidItem(sch, sid, i, x) && DefaultItem(sch, sid, i, d)
    requires Release.KnownRef(sch, sch[sid][i]) && IsDefault(sch, sch[sid][i], x, Undef)
    ensures if Hidden(sch, sid, i, x) then d == sch[sid][i].ptr.value else ReceivedItem(sch, sid, i, x, d)
    decreases x, 6
  {
    var f := sch[sid][i];
    assert WfMessage(sch, sid) && OkField(sch, sid, i);
    if f.ltype.SubMessage? {
      OmittedStruct(sch, f.ptr.id, x, d.members);
    }
  }

  lemma {:induction false} OmittedStruct(sch: Schema, sid: nat, x: Slot, d: Store)
    requires WfSchema(sch) && sid < |sch|
    requires ValidStruct(sch, sid, x) && AtDefault(sch, sid, d) && AllDefault(sch, sid, x, |sch[sid]|)
    ensures ReceivedStruct(sch, sid, x, Sub(d))
    decreases x, 3
  {
    forall i | 0 <= i < |sch[sid]| ensures ReceivedField(sch, sid, x, Sub(d), i) {
      assert ValidField(sch, sid, x, i) && CellAtDefault(sch, sid, i, CellOf(sch[sid], d, i));
      AllDefaultAt(sch, sid, x, |sch[sid]|, i);
      OmittedCell(sch, sid, i, CellOf(sch[sid], x.members, i), CellOf(sch[sid], d, i));
    }
  }

  lemma {:induction false} AllDefaultAt(sch: Schema, sid: nat, x: Slot, n: nat, i: nat)
    requires WfSchema(sch) && sid < |sch| && i < n <= |sch[sid]|
    requires AllDefault(sch, sid, x, n) && x.Sub? && DataAt(sch[sid], i) in x.members
    ensures Release.KnownRef(sch, sch[sid][i])
    ensures IsDefault(sch, sch[sid][i], CellOf(sch[sid], x.members, i).data, CellOf(sch[sid], x.members, i).size)
  {
    assert WfMessage(sch, sid) && OkField(sch, sid, i);
    if i == n - 1 {
    } else {
      AllDefaultAt(sch, sid, x, n - 1, i);
    }
  }

  /** A field for which nothing is emitted equals its default. */
  lemma {:induction false} OmittedCell(sch: Schema, sid: nat, i: nat, a: Cell, b: Cell)
    requires WfSchema(sch) && sid < |sch| && i < |sch[sid]|
    requires ValidCell(sch, sid, i, a) && CellAtDefault(sch, sid, i, b) && Release.KnownRef(sch, sch[sid][i])
    requires IsDefault(sch, sch[sid][i], a.data, a.size)
    ensures ReceivedCell(sch, sid, i, a, b)
    decreases a.data, 7
  {
    var f := sch[sid][i];
    assert WfMessage(sch, sid) && OkField(sch, sid, i);
    if f.htype.Optional? && f.sizeOffset == 0 && f.atype.Static? {
      OmittedIsDefault(sch, sid, i, a.data, b.data);
    }
  }

  /** Nothing emitted, nothing lost. */
  lemma NotEmitted(sch: Schema, sid: nat, i: nat, a: Cell, b: Cell)
    requires WfSchema(sch) && sid < |sch| && i < |sch[sid]|
    requires ValidCell(sch, sid, i, a) && CellAtDefault(sch, sid, i, b) && Release.KnownRef(sch, sch[sid][i])
    requires !Emitted(sch, sch[sid][i], a)
    requires sch[sid][i].htype.OneOf? ==> Number(a.size) == 0
    ensures ReceivedCell(sch, sid, i, a, b)
    ensures EncField(sch, sch[sid][i], a.data, a.size) == Emit(true, [])
    ensures !sch[sid][i].htype.Required?
  {
    var f := sch[sid][i];
    assert WfMessage(sch, sid) && OkField(sch, sid, i);
    if f.htype.Optional? && f.sizeOffset == 0 && f.atype.Static? {
      OmittedIsDefault(sch, sid, i, a.data, b.data);
    }
  }

  /** The field whose record settles field `i`: its own, or that of the current
      member of its union. */
  function Owner(fs: seq<Field>, x: Store, i: nat): nat
    requires i < |fs|
  {
    var w := Number(CellOf(fs, x, i).size);
    if fs[i].htype.OneOf? && w > 0 then FirstMatch(fs, w, 0) else i
  }

  /** After the bytes of the first `n` fields: a field is equal to the original if
      its record has been decoded, and at its default otherwise. */
  predicate Settled(sch: Schema, sid: nat, x: Store, m: Store, n: nat, i: nat)
    requires WfSchema(sch) && sid < |sch| && i < |sch[sid]|
  {
    if Owner(sch[sid], x, i) < n then ReceivedCell(sch, sid, i, CellOf(sch[sid], x, i), CellOf(sch[sid], m, i))
    else CellAtDefault(sch, sid, i, CellOf(sch[sid], m, i))
  }

  ghost predicate Midway(sch: Schema, sid: nat, x: Store, n: nat, was: D.Run, now: D.Run)
    requires WfSchema(sch) && sid < |sch| && n <= |sch[sid]|
  {
    && (forall i {:trigger Settled(sch, sid, x, now.store, n, i)} ::
          0 <= i < |sch[sid]| ==> Settled(sch, sid, x, now.store, n, i))
    && Generous(now.heap)
    && D.FixedDone(sch[sid], now) && now.fixed < n
    && (forall k {:trigger k in now.seen} :: 0 <= k < RequiredBefore(sch[sid], n) && k < MAX_REQUIRED_FIELDS ==>
          k in now.seen)
  }

  /** The which_ member of a valid struct. */
  lemma WhichIsMember(sch: Schema, sid: nat, x: Slot, i: nat)
    requires WfSchema(sch) && sid < |sch| && i < |sch[sid]| && ValidStruct(sch, sid, x) && sch[sid][i].htype.OneOf?
    ensures var w := CellOf(sch[sid], x.members, i).size; w.Num? && w.n >= 0 && ValidWhich(sch[sid], i, w.n)
  {
    hide CellOf, ValidItem, ValidTarget, ValidItems;
    assert ValidField(sch, sid, x, i);
    var c := CellOf(sch[sid], x.members, i);
    assert ValidCell(sch, sid, i, c);
    assert if sch[sid][i].atype.Pointer? then ValidPointer(sch, sid, i, c) else ValidStatic(sch, sid, i, c);
  }

  lemma OwnerInUnion(sch: Schema, sid: nat, x: Slot, i: nat)
    requires WfSchema(sch) && sid < |sch| && i < |sch[sid]| && ValidStruct(sch, sid, x)
    ensures var o := Owner(sch[sid], x.members, i);
            && o < |sch[sid]| && UnionHead(sch[sid], o) == UnionHead(sch[sid], i)
            && (sch[sid][i].htype.OneOf? && Number(CellOf(sch[sid], x.members, i).size) > 0 ==>
                  sch[sid][o].tag == Number(CellOf(sch[sid], x.members, i).size))
            && (!sch[sid][i].htype.OneOf? ==> o == i)
  {
    var fs := sch[sid];
    assert WfMessage(sch, sid) && OkField(sch, sid, i);
    var w := Number(CellOf(fs, x.members, i).size);
    if fs[i].htype.OneOf? && w > 0 {
      WhichIsMember(sch, sid, x, i);
      hide ValidStruct, CellOf;
      var k :| 0 <= k < |fs| && UnionHead(fs, k) == UnionHead(fs, i) && fs[k].tag == w;
      assert OkField(sch, sid, k);
      MatchIsUnique(fs, w, k);
    }
  }

  /** The record of field `n` settles it and its whole union. */
  lemma {:induction false} SettleEmitted(sch: Schema, sid: nat, x: Slot, n: nat, m: Store, c: Cell, i: nat)
    requires WfSchema(sch) && sid < |sch| && n < |sch[sid]| && i < |sch[sid]|
    requires ValidStruct(sch, sid, x) && Settled(sch, sid, x.members, m, n, i)
    requires Release.KnownRef(sch, sch[sid][n]) && Emitted(sch, sch[sid][n], CellOf(sch[sid], x.members, n))
    requires ReceivedCell(sch, sid, n, CellOf(sch[sid], x.members, n), NormalCell(sch[sid][n], c))
    requires sch[sid][n].htype.OneOf? ==> c.size == Num(sch[sid][n].tag)
    ensures Settled(sch, sid, x.members, PutCell(sch[sid], m, n, c), n + 1, i)
  {
    var fs := sch[sid];
    assert WfMessage(sch, sid) && OkField(sch, sid, n) && OkField(sch, sid, i);
    OwnerInUnion(sch, sid, x, i);
    if UnionHead(fs, i) != UnionHead(fs, n) {
      PutElsewhere(sch, sid, m, n, c, i);
    } else {
      PutThenGet(sch, sid, m, n, c);
      if i == n {
        EmittedOwner(sch, sid, x, n);
      } else {
        SettleSibling(sch, sid, x, n, m, c, i);
      }
    }
  }

  lemma SettleSibling(sch: Schema, sid: nat, x: Slot, n: nat, m: Store, c: Cell, i: nat)
    requires WfSchema(sch) && sid < |sch| && n < |sch[sid]| && i < |sch[sid]| && i != n
    requires ValidStruct(sch, sid, x) && UnionHead(sch[sid], i) == UnionHead(sch[sid], n)
    requires Release.KnownRef(sch, sch[sid][n]) && Emitted(sch, sch[sid][n], CellOf(sch[sid], x.members, n))
    requires sch[sid][n].htype.OneOf? ==> c.size == Num(sch[sid][n].tag)
    ensures Settled(sch, sid, x.members, PutCell(sch[sid], m, n, c), n + 1, i)
  {
    var fs := sch[sid];
    assert WfMessage(sch, sid) && OkField(sch, sid, n) && OkField(sch, sid, i);
    OneOfHead(fs, i, n);
    PutThenGet(sch, sid, m, n, c);
    UnionCell(sch, sid, PutCell(fs, m, n, c), i, n);
    UnionCell(sch, sid, x.members, i, n);
    MatchIsUnique(fs, fs[n].tag, n);
    assert ValidField(sch, sid, x, n);
    assert TagsDiffer(fs, if i < n then i else n, if i < n then n else i);
  }

  lemma {:induction false} SettleOmitted(sch: Schema, sid: nat, x: Slot, n: nat, m: Store, i: nat)
    requires WfSchema(sch) && sid < |sch| && n < |sch[sid]| && i < |sch[sid]|
    requires ValidStruct(sch, sid, x) && Settled(sch, sid, x.members, m, n, i)
    requires Release.KnownRef(sch, sch[sid][n]) && !Emitted(sch, sch[sid][n], CellOf(sch[sid], x.members, n))
    ensures Settled(sch, sid, x.members, m, n + 1, i)
  {
    var fs := sch[sid];
    OwnerInUnion(sch, sid, x, i);
    if Owner(fs, x.members, i) == n {
      OmittedOwner(sch, sid, x, n, i);
      assert ValidField(sch, sid, x, n);
      NotEmitted(sch, sid, n, CellOf(fs, x.members, n), CellOf(fs, m, n));
    }
  }

  /** A oneof member nobody emits is its own owner only in an empty union. */
  lemma OmittedOwner(sch: Schema, sid: nat, x: Slot, n: nat, i: nat)
    requires WfSchema(sch) && sid < |sch| && n < |sch[sid]| && i < |sch[sid]|
    requires ValidStruct(sch, sid, x) && Owner(sch[sid], x.members, i) == n
    requires Release.KnownRef(sch, sch[sid][n]) && !Emitted(sch, sch[sid][n], CellOf(sch[sid], x.members, n))
    ensures i == n && (sch[sid][n].htype.OneOf? ==> Number(CellOf(sch[sid], x.members, n).size) == 0)
  {
    var fs := sch[sid];
    assert WfMessage(sch, sid) && OkField(sch, sid, n);
    OwnerInUnion(sch, sid, x, i);
    UnionCell(sch, sid, x.members, i, n);
    assert ValidField(sch, sid, x, i);
    if i != n {
      OneOfHead(fs, i, n);
    }
    if fs[n].htype.OneOf? {
      WhichIsMember(sch, sid, x, n);
    }
  }

  lemma SeenStep(fs: seq<Field>, n: nat, seen: set<nat>)
    requires n < |fs|
    requires forall k {:trigger k in seen} :: 0 <= k < RequiredBefore(fs, n) && k < MAX_REQUIRED_FIELDS ==> k in seen
    ensures forall k {:trigger k in seen + D.Seen(fs, n)} ::
              0 <= k < RequiredBefore(fs, n + 1) && k < MAX_REQUIRED_FIELDS ==> k in seen + D.Seen(fs, n)
    ensures !fs[n].htype.Required? ==> RequiredBefore(fs, n + 1) == RequiredBefore(fs, n)
  {
  }

  lemma EmittedOwner(sch: Schema, sid: nat, x: Slot, n: nat)
    requires WfSchema(sch) && sid < |sch| && n < |sch[sid]| && ValidStruct(sch, sid, x)
    requires Release.KnownRef(sch, sch[sid][n]) && Emitted(sch, sch[sid][n], CellOf(sch[sid], x.members, n))
    ensures Owner(sch[sid], x.members, n) == n
  {
    assert WfMessage(sch, sid) && OkField(sch, sid, n);
    MatchIsUnique(sch[sid], sch[sid][n].tag, n);
  }

  /** A field whose record comes next is still at its default. */
  lemma StillDefault(sch: Schema, sid: nat, x: Slot, n: nat, m: Store)
    requires WfSchema(sch) && sid < |sch| && n < |sch[sid]| && ValidStruct(sch, sid, x)
    requires Release.KnownRef(sch, sch[sid][n]) && Emitted(sch, sch[sid][n], CellOf(sch[sid], x.members, n))
    requires Settled(sch, sid, x.members, m, n, n)
    ensures CellAtDefault(sch, sid, n, CellOf(sch[sid], m, n))
  {
    hide CellAtDefault, ReceivedCell, ValidStruct, Emitted;
    EmittedOwner(sch, sid, x, n);
  }

  lemma OmittedField(sch: Schema, sid: nat, x: Slot, n: nat, m: Store)
    requires WfSchema(sch) && sid < |sch| && n < |sch[sid]| && ValidStruct(sch, sid, x)
    requires Release.KnownRef(sch, sch[sid][n]) && !Emitted(sch, sch[sid][n], CellOf(sch[sid], x.members, n))
    requires Settled(sch, sid, x.members, m, n, n)
    ensures var a := CellOf(sch[sid], x.members, n); EncField(sch, sch[sid][n], a.data, a.size) == Emit(true, [])
    ensures !sch[sid][n].htype.Required?
  {
    assert WfMessage(sch, sid) && OkField(sch, sid, n);
    assert ValidField(sch, sid, x, n);
  }
}
