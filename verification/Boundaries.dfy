/** Where the laws stop: inputs for which a round trip or a merge fails, with the
    exact condition under which it holds. */
module Boundaries {
  import opened Bits
  import opened Varint
  import opened Descriptor
  import opened Scalars
  import opened Defaults
  import opened Allocator
  import opened Release
  import opened Ownership
  import opened ReleaseOwnership
  import opened DefaultOwnership
  import opened Losses
  import opened DecodeOwnership
  import opened Restarts
  import opened EncodeSpec
  import D = DecodeSpec
  import opened Structs
  import opened Received
  import opened Merge
  import opened Arrays
  import RoundTrip

  // ------------------------------------------------------------------ strings

  lemma StringOverflows(f: Field, b: seq<Byte>, t: seq<Byte>, dest: Slot, h: Heap)
    requires f.ltype.String? && f.atype.Static? && f.dataSize <= PB_SIZE_MAX && |b| == f.dataSize
    ensures !D.DecBuffer(f, EncString(b) + t, dest, h).ok
  {
    hide Varint32, AllocateField;
    StringParsed(b, t);
    U32Small(|b| + 1);
  }

  /** A static string that fills its array has no room for the terminator: it is
      encoded whole, and what is encoded decodes exactly when it is shorter. */
  lemma UnterminatedString(sch: Schema, f: Field, b: seq<Byte>, t: seq<Byte>, dest: Slot, h: Heap)
    requires WfSchema(sch) && KnownRef(sch, f) && f.ltype.String? && f.atype.Static?
    requires f.dataSize <= PB_SIZE_MAX && NoNul(b) && |b| <= f.dataSize
    ensures EncValue(sch, f, Buf(b)) == Emit(true, EncString(b))
    ensures D.DecValue(sch, f, EncString(b) + t, dest, h).ok <==> |b| < f.dataSize
    ensures |b| < f.dataSize ==> D.DecValue(sch, f, EncString(b) + t, dest, h) == D.ValueOut(true, t, Buf(b), h)
  {
    RoundTrip.UpToNulAll(b, f.dataSize);
    assert D.DecValue(sch, f, EncString(b) + t, dest, h) == D.DecBuffer(f, EncString(b) + t, dest, h);
    if |b| < f.dataSize {
      RoundTrip.BufferRoundTrip(f, b, t, dest, h);
    } else {
      StringOverflows(f, b, t, dest, h);
    }
  }

  // ------------------------------------------------------- defaults in proto3

  /** An explicit default on a proto3-style field hides the zero value of its type, in
      any field of any valid struct: what is sent decodes to the default instead, so
      the field keeps its value exactly when that is the default itself. */
  lemma DefaultHidesZero(sch: Schema, sid: nat, i: nat, x: Slot, into: Store, h: Heap)
    requires WfSchema(sch) && sid < |sch| && i < |sch[sid]| && Generous(h)
    requires ValidStruct(sch, sid, x) && Shaped(sch, sid, into)
    requires Hidden(sch, sid, i, CellOf(sch[sid], x.members, i).data)
    ensures var o := D.Decode(sch, sid, EncMessage(sch, sid, x).out, into, h);
            var sent, got := CellOf(sch[sid], x.members, i), CellOf(sch[sid], o.store, i);
            && o.ok && o.rest == [] && got.data == sch[sid][i].ptr.value
            && (SameCell(sch, sid, i, sent, got) <==> sent.data == sch[sid][i].ptr.value)
  {
    hide D.Decode, EncMessage;
    RoundTrip.EncodeDecode(sch, sid, x, into, h);
    hide ValidStruct;
    var o := D.Decode(sch, sid, EncMessage(sch, sid, x).out, into, h);
    var sent, got := CellOf(sch[sid], x.members, i), CellOf(sch[sid], o.store, i);
    assert ReceivedField(sch, sid, x, Sub(o.store), i);
    assert WfMessage(sch, sid) && OkField(sch, sid, i);
    assert ReceivedCell(sch, sid, i, sent, got) && SameValue(sch, sid, i, sent.data, got.data) ==
           SameItem(sch, sid, i, sent.data, got.data);
  }

  // ------------------------------------------------------ fixed-count and merge

  /** A fixed-count array that is sent twice does not merge: two messages that each
      fill it decode one after the other, and their concatenation does not. */
  lemma FixedCountDoesNotMerge(sch: Schema, sid: nat, i: nat, b: seq<Byte>, es: seq<int>, m: Store, h: Heap)
    requires WfSchema(sch) && sid < |sch| && i < |sch[sid]| && ScalarArray(sch, sid, i) && D.FixedCount(sch[sid][i])
    requires |es| == sch[sid][i].arraySize && Carries(sch[sid][i], b, es)
    requires var data := CellOf(sch[sid], m, i).data; data.Arr?
    ensures var first := D.Records(sch, sid, b, D.Start(m, h));
            && ToTheEnd(first) && D.FixedDone(sch[sid], first.run)
            && (var again := D.Records(sch, sid, b, D.Start(first.run.store, first.run.heap));
                ToTheEnd(again) && D.FixedDone(sch[sid], again.run))
            && !D.Records(sch, sid, b + b, D.Start(m, h)).ok
  {
    hide D.Records, Carries, Write;
    var f, one := sch[sid][i], Part(b, es);
    var items := CellOf(sch[sid], m, i).data.items;
    assert WfMessage(sch, sid) && OkField(sch, sid, i);
    var run := D.Start(m, h);
    OnePart(one);
    assert [one][1..] == [];
    AnyMixture(sch, sid, i, [one], items, 0, run);
    var first := D.Records(sch, sid, b, run).run;
    FilledIsReady(sch, sid, i, items, 0, es, run, first);
    AnyMixture(sch, sid, i, [one], Write(items, 0, es), |es|, first);
    RecordsConcat(sch, sid, b, b, run);
    AnyMixture(sch, sid, i, [one], Write(items, 0, es), 0, D.Start(first.store, first.heap));
  }

  // ------------------------------------------- static arrays that own blocks

  lemma TruncatedStep(sch: Schema, f: Field, s: seq<Byte>, items: seq<Slot>, k: nat, h: Heap)
    requires WfSchema(sch) && KnownRef(sch, f) && f.ltype.SubMessage? && D.Delimited(s).NoChunk?
    requires k < |items| && k < f.arraySize
    ensures var o := D.StaticSingle(sch, f, s, Cell(Arr(items), Num(k)), h);
            !o.ok && o.cell == Cell(Arr(items), Num(k + 1)) && o.heap == h
  {
    assert D.DecValue(sch, f, s, items[k], h) == D.DecSub(sch, f, s, items[k], h) == D.ValueOut(false, s, items[k], h);
    assert SetItem(items, k, items[k]) == items;
  }

  /** An element of a counted array whose bytes are cut off is counted, although its
      entry was not touched: a release that follows frees the right blocks exactly
      when it reaches none through the unused entry, as in zeroed memory. */
  lemma TruncatedEntryCounts(sch: Schema, f: Field, s: seq<Byte>, items: seq<Slot>, k: nat, h: Heap,
                             rest: multiset<nat>)
    requires WfSchema(sch) && KnownRef(sch, f) && PointerArray(sch, f) && !D.FixedCount(f) && D.Delimited(s).NoChunk?
    requires k < |items| == f.arraySize
    requires Balanced(h, rest + IdsCell(Reached, sch, f, Arr(items), Num(k)))
    ensures var o := D.StaticSingle(sch, f, s, Cell(Arr(items), Num(k)), h);
            && !o.ok && o.cell == Cell(Arr(items), Num(k + 1)) && o.heap == h
            && (Balanced(o.heap, rest + IdsCell(Reached, sch, f, Arr(items), Num(k + 1))) <==>
                IdsDest(Reached, sch, f, items[k]) == multiset{})
  {
    TruncatedStep(sch, f, s, items, k, h);
    CountedIds(sch, f, items, k);
    CountedIds(sch, f, items, k + 1);
    EntriesStep(Reached, sch, f, items, k);
    hide Balanced, IdsDest, IdsEntries, IdsCell, D.StaticSingle;
    var inner, next := IdsEntries(Reached, sch, f, items, k), IdsDest(Reached, sch, f, items[k]);
    OneAccount(h, rest + inner, next);
    Regroup(rest, inner, next);
  }

  lemma CountedIds(sch: Schema, f: Field, items: seq<Slot>, n: nat)
    requires WfSchema(sch) && KnownRef(sch, f) && PointerArray(sch, f) && !D.FixedCount(f) && n <= f.arraySize
    ensures IdsCell(Reached, sch, f, Arr(items), Num(n)) == IdsEntries(Reached, sch, f, items, n)
  {
    hide IdsEntries;
  }

  /** Decoding an element keeps the account of a static array exactly when it loses
      nothing. */
  lemma ElementLoses(sch: Schema, f: Field, s: seq<Byte>, c: Cell, h: Heap, rest: multiset<nat>)
    requires WfSchema(sch) && Accounted(sch, f) && PointerArray(sch, f) && 0 <= Number(c.size)
    requires SoundCell(sch, f, c.data, c.size) && Balanced(h, rest + IdsCell(Stored, sch, f, c.data, c.size))
    ensures var o := D.StaticSingle(sch, f, s, c, h);
            Balanced(o.heap, rest + IdsCell(Stored, sch, f, o.cell.data, o.cell.size)) <==>
            LostStatic(sch, f, s, c, h) == multiset{}
  {
    hide Balanced, D.StaticSingle, LostStatic, IdsCell, SoundCell;
    ArrayOwn(sch, f, s, c, h, rest);
    var o := D.StaticSingle(sch, f, s, c, h);
    var lost, ids := LostStatic(sch, f, s, c, h), IdsCell(Stored, sch, f, o.cell.data, o.cell.size);
    Exchange(rest, lost, ids);
    OneAccount(o.heap, rest + ids, lost);
  }

  /** What decoding into an entry loses: all it owned. */
  lemma EntryLoses(sch: Schema, f: Field, s: seq<Byte>, x: Slot, h: Heap, own: multiset<nat>)
    requires WfSchema(sch) && Accounted(sch, f) && f.htype.Repeated? && f.ltype.SubMessage? && PayloadOnce(sch, f, s)
    requires SoundStruct(sch, f.ptr.id, x) && Lasting(sch, f.ptr.id, Members(x)) == multiset{} && Balanced(h, own)
    ensures LostValue(sch, f, s, x, h) ==
            if D.Delimited(s).NoChunk? then multiset{} else IdsStruct(Stored, sch, f.ptr.id, x)
  {
    hide Balanced, LostDecode, LastingFields, IdsFields, SentOnce, SoundStruct, LaidOut;
    var id := f.ptr.id;
    SoundIsLaidOut(sch, id, x);
    SoundIsStruct(sch, id, x);
    if D.Delimited(s).Chunk? {
      DecodeKeeps(sch, id, D.Delimited(s).body, Members(x), h, own);
      AddNothing(IdsStruct(Stored, sch, id, x));
    }
  }

  /** An array whose run starts again fills its first entries again, which are
      initialised and not released. Whatever the element, and whether it decodes or
      not, the account stays right exactly when the entry owned nothing, or when
      the bytes of the element are not all there. */
  lemma RestartedEntry(sch: Schema, f: Field, s: seq<Byte>, items: seq<Slot>, k: nat, h: Heap, rest: multiset<nat>)
    requires WfSchema(sch) && Accounted(sch, f) && PointerArray(sch, f) && k < f.arraySize && PayloadOnce(sch, f, s)
    requires SoundArray(sch, f, Arr(items), Num(k))
    requires Balanced(h, rest + IdsEntries(Stored, sch, f, items, f.arraySize))
    requires Lasting(sch, f.ptr.id, Members(items[k])) == multiset{}
    ensures var o := D.StaticSingle(sch, f, s, Cell(Arr(items), Num(k)), h);
            && o.cell.data.Arr?
            && (Balanced(o.heap, rest + IdsEntries(Stored, sch, f, o.cell.data.items, f.arraySize)) <==>
                D.Delimited(s).NoChunk? || IdsDest(Stored, sch, f, items[k]) == multiset{})
  {
    hide Balanced, D.DecValue, LostValue, LastingFields, IdsFields, IdsEntries, PayloadOnce, SoundStruct;
    var c := Cell(Arr(items), Num(k));
    ElementLoses(sch, f, s, c, h, rest);
    assert SoundDest(sch, f, items[k]);
    EntryLoses(sch, f, s, items[k], h, rest + IdsEntries(Stored, sch, f, items, f.arraySize));
  }

  /** A release visits every entry of a fixed-count array, also those that were never
      decoded, and initialising the struct does not touch them: as long as the input
      changes nothing, the heap is the one of before, after the release inside a
      failing decode or that of the caller, exactly when no pointer is reached
      through the entries. */
  lemma EntriesAreReleased(sch: Schema, sid: nat, s: seq<Byte>, m: Store, h: Heap, rest: multiset<nat>)
    requires WfSchema(sch) && sid < |sch| && LaidOut(sch, sid, m) && Balanced(h, rest)
    requires var o := D.DecodeNoInit(sch, sid, s, Initialised(sch, sid, m), h);
             o.store == Initialised(sch, sid, m) && o.heap == h
    ensures var o := D.Decode(sch, sid, s, m, h);
            var after := if o.ok then ReleaseStruct(sch, sid, Sub(o.store), o.heap).heap else o.heap;
            Balanced(after, rest) <==> IdsStruct(Reached, sch, sid, Sub(Initialised(sch, sid, m))) == multiset{}
  {
    hide D.DecodeNoInit, Bounded, SetDefaults, LaidOut, IdsFields, ReleaseFields, LastingFields;
    var m0 := Initialised(sch, sid, m);
    DefaultsSound(sch, sid, m);
    BalancedIsBounded(h, rest);
    ReleaseStructOwn(sch, sid, Sub(m0), h, rest);
    OneAccount(h, rest, IdsStruct(Reached, sch, sid, Sub(m0)));
  }
}
