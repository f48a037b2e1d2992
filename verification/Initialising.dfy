/** pb_message_set_to_defaults, field by field: what a struct holds afterwards, whatever
    it held before. */
module Initialising {
  import opened Descriptor
  import opened Defaults

  /** Whether a member of the union of field `i` lies before position `n`, and whether one of
      them is a pointer. */
  predicate Met(fs: seq<Field>, i: nat, n: nat)
    requires n <= |fs|
  {
    n > 0 && (UnionHead(fs, n - 1) == UnionHead(fs, i) || Met(fs, i, n - 1))
  }

  predicate MetPointer(fs: seq<Field>, i: nat, n: nat)
    requires n <= |fs|
  {
    n > 0 && ((UnionHead(fs, n - 1) == UnionHead(fs, i) && fs[n - 1].atype.Pointer?) || MetPointer(fs, i, n - 1))
  }

  lemma {:induction false} MetItself(fs: seq<Field>, i: nat, n: nat)
    requires i < n <= |fs|
    ensures Met(fs, i, n)
  {
    if i < n - 1 {
      MetItself(fs, i, n - 1);
    }
  }

  /** A field outside all unions is met once. */
  lemma {:induction false} FieldReset(sch: Schema, sid: nat, m: Store, n: nat, i: nat)
    requires WfSchema(sch) && sid < |sch| && n <= |sch[sid]| && i < |sch[sid]| && !sch[sid][i].htype.OneOf?
    ensures var was := CellOf(sch[sid], m, i);
            CellOf(sch[sid], SetDefaults(sch, sid, m, n), i) ==
            if i < n then NormalCell(sch[sid][i], DefaultCell(sch, sid, i, was)) else was
    decreases n
  {
    if n > 0 {
      hide DefaultCell, CellOf, PutCell, NormalCell;
      var m1, j := SetDefaults(sch, sid, m, n - 1), n - 1;
      assert WfMessage(sch, sid);
      FieldReset(sch, sid, m, j, i);
      var c := DefaultCell(sch, sid, j, CellOf(sch[sid], m1, j));
      if i == j {
        PutThenGet(sch, sid, m1, j, c);
      } else {
        if UnionHead(sch[sid], i) == UnionHead(sch[sid], j) {
          OneOfHead(sch[sid], i, j);
        }
        PutElsewhere(sch, sid, m1, j, c, i);
      }
    }
  }

  lemma MemberReset(sch: Schema, sid: nat, j: nat, c: Cell)
    requires WfSchema(sch) && sid < |sch| && j < |sch[sid]| && sch[sid][j].htype.OneOf?
    ensures NormalCell(sch[sid][j], DefaultCell(sch, sid, j, c)) ==
            Cell(if sch[sid][j].atype.Pointer? then Nil else c.data, Num(0))
  {
    assert WfMessage(sch, sid) && OkField(sch, sid, j);
  }

  /** The members of a union share one cell, and each resets it. */
  lemma {:induction false} UnionReset(sch: Schema, sid: nat, m: Store, n: nat, i: nat)
    requires WfSchema(sch) && sid < |sch| && n <= |sch[sid]| && i < |sch[sid]| && sch[sid][i].htype.OneOf?
    ensures var fs := sch[sid];
            var was, now := CellOf(fs, m, i), CellOf(fs, SetDefaults(sch, sid, m, n), i);
            && now.data == (if MetPointer(fs, i, n) then Nil else was.data)
            && now.size == (if Met(fs, i, n) then Num(0) else was.size)
    decreases n
  {
    hide CellOf, PutCell, DefaultCell, NormalCell;
    if n > 0 {
      var fs, m1, j := sch[sid], SetDefaults(sch, sid, m, n - 1), n - 1;
      UnionReset(sch, sid, m, j, i);
      assert WfMessage(sch, sid);
      var c := DefaultCell(sch, sid, j, CellOf(fs, m1, j));
      if UnionHead(fs, i) == UnionHead(fs, j) {
        if i != j {
          OneOfHead(fs, i, j);
        }
        UnionCell(sch, sid, m1, i, j);
        UnionCell(sch, sid, PutCell(fs, m1, j, c), i, j);
        PutThenGet(sch, sid, m1, j, c);
        MemberReset(sch, sid, j, CellOf(fs, m1, j));
      } else {
        PutElsewhere(sch, sid, m1, j, c, i);
      }
    }
  }

  /** Zero in a member of the field's type. */
  function ZeroOf(f: Field): Slot {
    match f.ltype
    case String => Buf([])
    case Bytes => Buf([])
    case FixedLengthBytes => Buf(seq(f.dataSize, _ => 0))
    case _ => Num(0)
  }

  /** Pointers are null, counters, has_ and which_ are zero; the entries of a static array and
      the storage of a union without pointers are left alone; a submessage is initialised in
      place; any other member gets its default, or zero. */
  lemma InitialisedExactly(sch: Schema, sid: nat, m: Store, i: nat)
    requires WfSchema(sch) && sid < |sch| && i < |sch[sid]|
    ensures sch[sid][i].ptr.Fields? ==> sch[sid][i].ptr.id < |sch|
    ensures var fs, f := sch[sid], sch[sid][i];
            var was, now := CellOf(fs, m, i), CellOf(fs, Initialised(sch, sid, m), i);
            && (f.sizeOffset != 0 ==> now.size == Num(0))
            && now.data ==
               if f.htype.OneOf? then (if MetPointer(fs, i, |fs|) then Nil else was.data)
               else if f.atype.Pointer? then Nil
               else if f.htype.Repeated? then was.data
               else if f.ptr.Fields? then Sub(Initialised(sch, f.ptr.id, Members(was.data)))
               else if f.ptr.Default? then f.ptr.value
               else ZeroOf(f)
  {
    hide SetDefaults, CellOf;
    assert WfMessage(sch, sid) && OkField(sch, sid, i);
    if sch[sid][i].htype.OneOf? {
      UnionReset(sch, sid, m, |sch[sid]|, i);
      MetItself(sch[sid], i, |sch[sid]|);
    } else {
      FieldReset(sch, sid, m, |sch[sid]|, i);
    }
  }
}
