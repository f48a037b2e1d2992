/** pb_common.c: the cyclic cursor over a field table, and the reference
    definition of the tag search. */
module FieldIterator {
  import opened Descriptor

  /** Entry `i` is what a search for `tag` stops at. Entry 0 of an empty table is
      the terminator, whose tag is 0. */
  predicate Matches(fs: seq<Field>, i: nat, tag: nat) {
    FieldAt(fs, i).tag == tag && !FieldAt(fs, i).ltype.Extension?
  }

  /** First match at or after `i`; |fs| if none. */
  function FirstMatch(fs: seq<Field>, tag: nat, i: nat): (r: nat)
    requires i <= |fs|
    ensures i <= r <= |fs|
    decreases |fs| - i
  {
    if i == |fs| || Matches(fs, i, tag) then i else FirstMatch(fs, tag, i + 1)
  }

  /** The search finds something: a field, or the terminator of an empty message. */
  predicate Known(fs: seq<Field>, tag: nat) {
    FirstMatch(fs, tag, 0) < |fs| || (fs == [] && tag == 0)
  }

  lemma {:induction false} FirstMatchExact(fs: seq<Field>, tag: nat, i: nat)
    requires i <= |fs|
    ensures FirstMatch(fs, tag, i) < |fs| ==> Matches(fs, FirstMatch(fs, tag, i), tag)
    ensures forall k :: i <= k < FirstMatch(fs, tag, i) ==> !Matches(fs, k, tag)
    decreases |fs| - i
  {
    if i == |fs| || Matches(fs, i, tag) {
    } else {
      FirstMatchExact(fs, tag, i + 1);
    }
  }

  /** Tags are unique, so whichever entry matches is the one from the front. */
  lemma MatchIsUnique(fs: seq<Field>, tag: nat, i: nat)
    requires WfTable(fs) && i < |fs| && Matches(fs, i, tag)
    ensures FirstMatch(fs, tag, 0) == i
  {
    FirstMatchExact(fs, tag, 0);
    var j := FirstMatch(fs, tag, 0);
    assert j < i ==> TagsDiffer(fs, j, i);
  }

  lemma NoMatch(fs: seq<Field>, tag: nat)
    requires forall i :: 0 <= i < |fs| ==> !Matches(fs, i, tag)
    ensures FirstMatch(fs, tag, 0) == |fs|
  {
    FirstMatchExact(fs, tag, 0);
  }

  /** The position `next` moves to. */
  function Advance(fs: seq<Field>, i: nat): nat {
    if i + 1 < |fs| then i + 1 else 0
  }

  /** Positions visited by walking from `from` up to, not including, `to`, going
      round the end of the table when `to` is before `from`. */
  predicate Between(fs: seq<Field>, from: nat, i: nat, to: nat) {
    if from <= to then from <= i < to else from <= i < |fs| || i < to
  }

  /** The data_offset of entry `i` is what the PB_DATAOFFSET macros make of the
      addresses `at` the compiler gave to the members. */
  predicate OffsetMacro(fs: seq<Field>, at: seq<int>, i: nat)
    requires |at| == |fs| && i < |fs|
  {
    if i == 0 then fs[0].dataOffset == at[0]
    else if InUnion(fs, i) then at[i] == at[i - 1]
    else fs[i].dataOffset == at[i] - at[i - 1] - Extent(fs[i - 1])
  }

  /** Adding up sizes and relative offsets, the iterator arrives at the address of
      every member. */
  lemma {:induction false} FindsMembers(fs: seq<Field>, at: seq<int>, i: nat)
    requires |at| == |fs| && i < |fs|
    requires forall k {:trigger OffsetMacro(fs, at, k)} :: 0 <= k < |fs| ==> OffsetMacro(fs, at, k)
    ensures DataAt(fs, i) == at[i]
  {
    assert OffsetMacro(fs, at, i);
    if i == 0 {
    } else {
      FindsMembers(fs, at, i - 1);
    }
  }

  /** Where the member after another one lies: behind its array, its pointer of eight bytes
      or its value, by the distance in the table. A distance of 2^32 - 1 says that both
      are members of one union and lie at the same place. */
  lemma NextAddress(fs: seq<Field>, i: nat)
    requires 0 < i < |fs|
    ensures var prev := fs[i - 1];
            DataAt(fs, i) ==
            if prev.htype.OneOf? && fs[i].htype.OneOf? && fs[i].dataOffset == 0xFFFF_FFFF then DataAt(fs, i - 1)
            else DataAt(fs, i - 1) + fs[i].dataOffset +
                 if prev.atype.Static? && prev.htype.Repeated? then prev.dataSize * prev.arraySize
                 else if prev.atype.Pointer? then 8
                 else prev.dataSize
  {
  }

  class FieldIter {
    const start: seq<Field>
    var pos: nat
    var requiredIndex: nat
    var pData: int
    var pSize: int

    /** The incrementally computed state agrees with the table. */
    ghost predicate Valid()
      reads this
    {
      && (pos < |start| || (start == [] && pos == 0))
      && pData == DataAt(start, pos)
      && pSize == SizeAt(start, pos)
      && requiredIndex == RequiredBefore(start, pos)
    }

    constructor Begin(fields: seq<Field>)
      ensures Valid() && start == fields && pos == 0
    {
      start := fields;
      pos := 0;
      requiredIndex := 0;
      pData := FieldAt(fields, 0).dataOffset;
      pSize := FieldAt(fields, 0).dataOffset + FieldAt(fields, 0).sizeOffset;
    }

    method Restart() returns (nonEmpty: bool)
      modifies this
      ensures Valid() && pos == 0 && (nonEmpty <==> FieldAt(start, 0).tag != 0)
    {
      pos := 0;
      requiredIndex := 0;
      pData := FieldAt(start, 0).dataOffset;
      pSize := pData + FieldAt(start, 0).sizeOffset;
      nonEmpty := FieldAt(start, 0).tag != 0;
    }

    method Next() returns (more: bool)
      requires Valid() && forall i :: 0 <= i < |start| ==> start[i].tag != 0
      modifies this
      ensures Valid() && pos == Advance(start, old(pos))
      ensures more <==> old(pos) + 1 < |start|
    {
      var prev := FieldAt(start, pos);
      if prev.tag == 0 {
        return false;
      }
      pos := pos + 1;
      var cur := FieldAt(start, pos);
      if cur.tag == 0 {
        var _ := Restart();
        return false;
      }
      var prevSize := prev.dataSize;
      if prev.htype.OneOf? && cur.htype.OneOf? && cur.dataOffset == PB_SIZE_MAX {
        return true;
      } else if prev.atype.Static? && prev.htype.Repeated? {
        prevSize := prevSize * prev.arraySize;
      } else if prev.atype.Pointer? {
        prevSize := POINTER_SIZE;
      }
      if prev.htype.Required? {
        requiredIndex := requiredIndex + 1;
      }
      pData := pData + prevSize + cur.dataOffset;
      pSize := pData + cur.sizeOffset;
      return true;
    }

    /** Stops at the first match at or after the current position, going round
        once; without a match it ends where it started. */
    method Find(tag: nat) returns (found: bool)
      requires Valid() && forall i :: 0 <= i < |start| ==> start[i].tag != 0
      modifies this
      ensures Valid()
      ensures found ==> Matches(start, pos, tag)
      ensures found ==> forall i :: Between(start, old(pos), i, pos) ==> !Matches(start, i, tag)
      ensures !found ==> pos == old(pos) && !Matches(start, pos, tag)
      ensures !found ==> forall i :: 0 <= i < |start| ==> !Matches(start, i, tag)
      ensures found ==> FieldAt(start, pos).tag == tag && !FieldAt(start, pos).ltype.Extension?
      ensures !found ==> forall i :: 0 <= i < |start| && start[i].tag == tag ==> start[i].ltype.Extension?
    {
      var from := pos;
      ghost var turned := false;
      while true
        invariant Valid()
        invariant !turned ==> from <= pos
        invariant turned ==> pos < from
        invariant forall i :: Between(start, from, i, pos) ==> !Matches(start, i, tag)
        decreases if turned then from - pos else |start| + from - pos + 1
      {
        var field := FieldAt(start, pos);
        if field.tag == tag && !field.ltype.Extension? {
          return true;
        }
        var more := Next();
        turned := turned || !more;
        if pos == from {
          break;
        }
      }
      forall i | 0 <= i < |start| && start[i].tag == tag ensures start[i].ltype.Extension? {
        assert !Matches(start, i, tag) && FieldAt(start, i) == start[i];
      }
      return false;
    }

    /** Walks to the extension placeholder; without one, round to where it was. */
    method FindExtension() returns (found: bool)
      requires Valid() && forall i :: 0 <= i < |start| ==> start[i].tag != 0
      modifies this
      ensures Valid()
      ensures found ==> FieldAt(start, pos).ltype.Extension?
      ensures !found ==> pos == old(pos) && forall i :: 0 <= i < |start| ==> !FieldAt(start, i).ltype.Extension?
    {
      var from := pos;
      ghost var turned := false;
      while true
        invariant Valid()
        invariant !turned ==> from <= pos
        invariant turned ==> pos < from
        invariant forall i :: Between(start, from, i, pos) ==> !FieldAt(start, i).ltype.Extension?
        decreases if turned then from - pos else |start| + from - pos + 1
      {
        if FieldAt(start, pos).ltype.Extension? {
          return true;
        }
        var more := Next();
        turned := turned || !more;
        if pos == from {
          break;
        }
      }
      return false;
    }
  }
}
