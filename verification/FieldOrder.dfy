/** Records of different fields commute: a field step reads and writes its own
    cell only, and cells outside one union have no address in common. */
module FieldOrder {
  import opened Bits
  import opened Descriptor
  import opened FieldIterator
  import opened Allocator
  import Release
  import opened DecodeSpec
  import opened Locality
  import opened StaticOnly
  import opened Merge
  import opened UpToBlocks
  import Defaults

  /** `rec` starts with a key of field `i`. */
  predicate RecordOf(fs: seq<Field>, rec: seq<Byte>, i: nat) {
    var t := DecodeTag(rec);
    t.Tag? && i < |fs| && FirstMatch(fs, t.number, 0) == i
  }

  lemma PutCommutes(sch: Schema, sid: nat, m: Store, i: nat, a: Cell, j: nat, b: Cell)
    requires sid < |sch| && WfMessage(sch, sid) && i < |sch[sid]| && j < |sch[sid]|
    requires UnionHead(sch[sid], i) != UnionHead(sch[sid], j)
    ensures PutCell(sch[sid], PutCell(sch[sid], m, i, a), j, b) == PutCell(sch[sid], PutCell(sch[sid], m, j, b), i, a)
  {
    DisjointStorage(sch, sid, i, j);
    var fs := sch[sid];
    MapCommutes(m, DataAt(fs, i), SizeAt(fs, i), a, DataAt(fs, j), SizeAt(fs, j), b, fs[i].sizeOffset != 0,
                fs[j].sizeOffset != 0);
  }

  function PutAt(m: Store, d: int, s: int, c: Cell, sized: bool): Store {
    if sized then m[d := c.data][s := c.size] else m[d := c.data]
  }

  lemma MapCommutes(m: Store, d: int, s: int, a: Cell, e: int, t: int, b: Cell, sized: bool, tized: bool)
    requires {d, s} !! {e, t}
    ensures PutAt(PutAt(m, d, s, a, sized), e, t, b, tized) == PutAt(PutAt(m, e, t, b, tized), d, s, a, sized)
  {
    assert d !in {e, t} && s !in {e, t};
  }

  // ------------------------------------------------------- records as steps

  /** The run as a step of field `i` finds it. */
  function Entered(fs: seq<Field>, run: Run, i: nat): Run
    requires i < |fs|
  {
    if FixedCount(fs[i]) then EnterFixed(run, i) else run
  }

  function CellFor(fs: seq<Field>, run: Run, i: nat): Cell
    requires i < |fs|
  {
    RunCell(fs, Entered(fs, run, i), i)
  }

  /** The run as the step leaves it. */
  function Stepped(fs: seq<Field>, run: Run, i: nat, o: StepOut): Run
    requires i < |fs|
  {
    WriteBack(fs, Entered(fs, run, i).(seen := run.seen + Seen(fs, i)), i, o.cell, o.heap)
  }

  /** No other fixed-count array is still incomplete. */
  predicate Admits(fs: seq<Field>, run: Run, i: nat)
    requires i < |fs|
  {
    FixedCount(fs[i]) && run.fixed != i ==> FixedDone(fs, run)
  }

  /** The step that record `rec` of field `i` takes from a cell. */
  function StepOf(sch: Schema, sid: nat, i: nat, rec: seq<Byte>, c: Cell, h: Heap): StepOut
    requires WfSchema(sch) && sid < |sch| && RecordOf(sch[sid], rec, i)
  {
    var t := DecodeTag(rec);
    FieldStep(sch, sid, i, t.wire, t.rest, c, h)
  }

  /** One record of a known field is one step on its cell. */
  lemma RecordIsStep(sch: Schema, sid: nat, rec: seq<Byte>, i: nat, run: Run)
    requires WfSchema(sch) && sid < |sch| && RecordOf(sch[sid], rec, i)
    ensures var o := StepOf(sch, sid, i, rec, CellFor(sch[sid], run, i), run.heap);
            if Admits(sch[sid], run, i) then
              Record(sch, sid, rec, run) == RunOut(o.ok, false, o.rest, Stepped(sch[sid], run, i, o))
            else !Record(sch, sid, rec, run).ok
  {
    hide FieldStep;
    assert Known(sch[sid], DecodeTag(rec).number);
  }

  /** What both orders do: each field takes its step from the cell it had. */
  ghost predicate StepsApart(sch: Schema, sid: nat, i: nat, j: nat, r1: seq<Byte>, r2: seq<Byte>, run: Run)
    requires WfSchema(sch) && sid < |sch| && RecordOf(sch[sid], r1, i) && RecordOf(sch[sid], r2, j)
  {
    var o1 := Record(sch, sid, r1, run);
    o1.ok && o1.rest == [] && var o2 := Record(sch, sid, r2, o1.run); o2.ok && o2.rest == []
  }

  /** Fields outside one another's union, not both of them fixed-count arrays. */
  predicate Independent(fs: seq<Field>, i: nat, j: nat)
    requires i < |fs| && j < |fs|
  {
    UnionHead(fs, i) != UnionHead(fs, j) && !(FixedCount(fs[i]) && FixedCount(fs[j]))
  }

  /** A step leaves every independent field as it was. */
  lemma Elsewhere(sch: Schema, sid: nat, i: nat, j: nat, run: Run, o: StepOut)
    requires WfSchema(sch) && sid < |sch| && i < |sch[sid]| && j < |sch[sid]| && Independent(sch[sid], i, j)
    ensures var fs, now := sch[sid], Stepped(sch[sid], run, i, o);
            CellFor(fs, now, j) == CellFor(fs, run, j) && (Admits(fs, now, j) <==> Admits(fs, run, j))
  {
    hide CellOf, PutCell;
    assert WfMessage(sch, sid);
    PutElsewhere(sch, sid, run.store, i, o.cell, j);
  }

  /** The same two steps in either order. */
  lemma SteppedCommute(sch: Schema, sid: nat, run: Run, i: nat, a: StepOut, c: StepOut, j: nat, b: StepOut, d: StepOut)
    requires WfSchema(sch) && sid < |sch| && i < |sch[sid]| && j < |sch[sid]| && Independent(sch[sid], i, j)
    requires a.cell == c.cell && b.cell == d.cell && b.heap == c.heap
    ensures var fs := sch[sid]; Stepped(fs, Stepped(fs, run, i, a), j, b) == Stepped(fs, Stepped(fs, run, j, d), i, c)
  {
    hide PutCell;
    assert WfMessage(sch, sid);
    PutCommutes(sch, sid, run.store, i, c.cell, j, d.cell);
    SetCommutes(run.seen, Seen(sch[sid], i), Seen(sch[sid], j));
  }

  lemma SteppedHeap(fs: seq<Field>, run: Run, i: nat, o: StepOut)
    requires i < |fs|
    ensures Stepped(fs, run, i, o).heap == o.heap
  {
  }

  /** Two records of independent fields are two steps from the cells of the same run. */
  lemma BothRecords(sch: Schema, sid: nat, i: nat, j: nat, r1: seq<Byte>, r2: seq<Byte>, run: Run)
    requires WfSchema(sch) && sid < |sch| && RecordOf(sch[sid], r1, i) && RecordOf(sch[sid], r2, j)
    requires Independent(sch[sid], i, j)
    ensures var fs := sch[sid];
            var a := StepOf(sch, sid, i, r1, CellFor(fs, run, i), run.heap);
            var b := StepOf(sch, sid, j, r2, CellFor(fs, run, j), a.heap);
            && (StepsApart(sch, sid, i, j, r1, r2, run) <==>
                Admits(fs, run, i) && Admits(fs, run, j) && a.ok && a.rest == [] && b.ok && b.rest == [])
            && (StepsApart(sch, sid, i, j, r1, r2, run) ==>
                  Record(sch, sid, r2, Record(sch, sid, r1, run).run).run == Stepped(fs, Stepped(fs, run, i, a), j, b))
  {
    hide StepOf, Stepped, CellFor, Admits, Independent, DecodeTag, Record;
    var a := StepOf(sch, sid, i, r1, CellFor(sch[sid], run, i), run.heap);
    RecordIsStep(sch, sid, r1, i, run);
    Elsewhere(sch, sid, i, j, run, a);
    SteppedHeap(sch[sid], run, i, a);
    RecordIsStep(sch, sid, r2, j, Stepped(sch[sid], run, i, a));
  }

  /** A step that does not touch the heap. */
  lemma StepStays(sch: Schema, sid: nat, i: nat, rec: seq<Byte>, c: Cell, h: Heap, g: Heap)
    requires WfSchema(sch) && sid < |sch| && RecordOf(sch[sid], rec, i) && StaticUnion(sch, sid, i)
    ensures StepOf(sch, sid, i, rec, c, h).heap == h
    ensures StepOf(sch, sid, i, rec, c, g) == StepOf(sch, sid, i, rec, c, h).(heap := g)
  {
    hide FieldStep, StaticUnion;
    var t := DecodeTag(rec);
    FieldStatic(sch, sid, i, t.wire, t.rest, c, h, g);
    FieldStatic(sch, sid, i, t.wire, t.rest, c, h, h);
  }

  lemma RecordsCommute(sch: Schema, sid: nat, i: nat, j: nat, r1: seq<Byte>, r2: seq<Byte>, run: Run)
    requires WfSchema(sch) && sid < |sch| && RecordOf(sch[sid], r1, i) && RecordOf(sch[sid], r2, j)
    requires Independent(sch[sid], i, j)
    requires StaticUnion(sch, sid, i) || StaticUnion(sch, sid, j)
    requires StepsApart(sch, sid, i, j, r1, r2, run)
    ensures StepsApart(sch, sid, j, i, r2, r1, run)
    ensures Record(sch, sid, r2, Record(sch, sid, r1, run).run).run ==
            Record(sch, sid, r1, Record(sch, sid, r2, run).run).run
  {
    hide StepOf, Stepped, CellFor, Admits, StaticUnion, DecodeTag, Record, StepsApart;
    var fs, h := sch[sid], run.heap;
    var x, y := CellFor(fs, run, i), CellFor(fs, run, j);
    BothRecords(sch, sid, i, j, r1, r2, run);
    BothRecords(sch, sid, j, i, r2, r1, run);
    var a, d := StepOf(sch, sid, i, r1, x, h), StepOf(sch, sid, j, r2, y, h);
    if StaticUnion(sch, sid, j) {
      StepStays(sch, sid, j, r2, y, h, a.heap);
    } else {
      StepStays(sch, sid, i, r1, x, h, d.heap);
    }
    SteppedCommute(sch, sid, run, i, a, StepOf(sch, sid, i, r1, x, d.heap), j, StepOf(sch, sid, j, r2, y, a.heap), d);
  }

  lemma SetCommutes(a: set<nat>, b: set<nat>, c: set<nat>)
    ensures (a + b) + c == (a + c) + b
  {
  }

  lemma TwoRecords(sch: Schema, sid: nat, r1: seq<Byte>, r2: seq<Byte>, t: seq<Byte>, run: Run)
    requires WfSchema(sch) && sid < |sch|
    requires var o1 := Record(sch, sid, r1, run); o1.ok && !o1.stopped && o1.rest == [] && r1 != []
    requires var o1 := Record(sch, sid, r1, run); var o2 := Record(sch, sid, r2, o1.run);
             o2.ok && !o2.stopped && o2.rest == [] && r2 != []
    ensures Records(sch, sid, r1 + (r2 + t), run) ==
            Records(sch, sid, t, Record(sch, sid, r2, Record(sch, sid, r1, run).run).run)
  {
    OneRecord(sch, sid, r1, r2 + t, run);
    OneRecord(sch, sid, r2, t, Record(sch, sid, r1, run).run);
  }

  lemma OneRecord(sch: Schema, sid: nat, r: seq<Byte>, t: seq<Byte>, run: Run)
    requires WfSchema(sch) && sid < |sch|
    requires var o := Record(sch, sid, r, run); o.ok && !o.stopped && o.rest == [] && r != []
    ensures Records(sch, sid, r + t, run) == Records(sch, sid, t, Record(sch, sid, r, run).run)
  {
    RecordLocal(sch, sid, r, t, run);
    AppendNonEmpty(r, t);
    assert [] + t == t;
  }

  /** Field order does not matter: two neighbouring records of fields outside one
      another's union, at most one of them a fixed-count array and at most one of
      them touching the heap, may change places without changing anything a decode
      does. */
  lemma OrderDoesNotMatter(sch: Schema, sid: nat, i: nat, j: nat, before: seq<Byte>, r1: seq<Byte>, r2: seq<Byte>,
                           after: seq<Byte>, start: Run)
    requires WfSchema(sch) && sid < |sch| && RecordOf(sch[sid], r1, i) && RecordOf(sch[sid], r2, j)
    requires Independent(sch[sid], i, j)
    requires StaticUnion(sch, sid, i) || StaticUnion(sch, sid, j)
    requires ToTheEnd(Records(sch, sid, before, start))
    requires StepsApart(sch, sid, i, j, r1, r2, Records(sch, sid, before, start).run)
    ensures Records(sch, sid, before + (r1 + (r2 + after)), start) ==
            Records(sch, sid, before + (r2 + (r1 + after)), start)
  {
    var run := Records(sch, sid, before, start).run;
    RecordsConcat(sch, sid, before, r1 + (r2 + after), start);
    RecordsConcat(sch, sid, before, r2 + (r1 + after), start);
    RecordsCommute(sch, sid, i, j, r1, r2, run);
    NotStopped(sch, sid, r1, i, run);
    NotStopped(sch, sid, r2, j, run);
    NotStopped(sch, sid, r2, j, Record(sch, sid, r1, run).run);
    NotStopped(sch, sid, r1, i, Record(sch, sid, r2, run).run);
    TwoRecords(sch, sid, r1, r2, after, run);
    TwoRecords(sch, sid, r2, r1, after, run);
  }

  lemma NotStopped(sch: Schema, sid: nat, rec: seq<Byte>, i: nat, run: Run)
    requires WfSchema(sch) && sid < |sch| && RecordOf(sch[sid], rec, i)
    ensures !Record(sch, sid, rec, run).stopped && rec != []
  {
    assert Known(sch[sid], DecodeTag(rec).number);
  }

  // ------------------------------------------------------------- with pointers

  /** Two alike steps on different cells, in either order. */
  lemma StepsMeet(rule: Policy, sch: Schema, sid: nat, run: Run, i: nat, a: StepOut, c: StepOut, j: nat, b: StepOut,
                  d: StepOut)
    requires WfSchema(sch) && sid < |sch| && i < |sch[sid]| && j < |sch[sid]| && Independent(sch[sid], i, j)
    requires AlikeSteps(rule, a, c) && AlikeSteps(rule, b, d) && SamePolicy(rule, b.heap, c.heap)
    ensures var fs := sch[sid];
            AlikeRuns(rule, Stepped(fs, Stepped(fs, run, i, a), j, b), Stepped(fs, Stepped(fs, run, j, d), i, c))
  {
    hide Alike, AlikeStores, AlikeItems, SamePolicy, PutCell;
    var fs := sch[sid];
    assert WfMessage(sch, sid);
    StoreItself(run.store);
    CellsPut(fs, run.store, run.store, i, a.cell, c.cell);
    CellsPut(fs, PutCell(fs, run.store, i, a.cell), PutCell(fs, run.store, i, c.cell), j, b.cell, d.cell);
    PutCommutes(sch, sid, run.store, i, c.cell, j, d.cell);
    SetCommutes(run.seen, Seen(fs, i), Seen(fs, j));
    Views(a.cell.size, c.cell.size);
    Views(b.cell.size, d.cell.size);
  }

  /** The same step from the same cell on two heaps. */
  lemma StepTwice(rule: Policy, sch: Schema, sid: nat, i: nat, rec: seq<Byte>, c: Cell, h: Heap, g: Heap)
    requires WfSchema(sch) && sid < |sch| && RecordOf(sch[sid], rec, i) && SamePolicy(rule, h, g)
    ensures AlikeSteps(rule, StepOf(sch, sid, i, rec, c, h), StepOf(sch, sid, i, rec, c, g))
  {
    hide FieldStep, Alike, AlikeSteps, SamePolicy;
    AlikeItself(c.data);
    AlikeItself(c.size);
    var t := DecodeTag(rec);
    FieldAlike(rule, sch, sid, i, t.wire, t.rest, c, c, h, g);
  }

  lemma StepPolicy(rule: Policy, sch: Schema, sid: nat, i: nat, rec: seq<Byte>, c: Cell, h: Heap)
    requires WfSchema(sch) && sid < |sch| && RecordOf(sch[sid], rec, i) && SamePolicy(rule, h, h)
    ensures SamePolicy(rule, StepOf(sch, sid, i, rec, c, h).heap, h)
  {
    StepTwice(rule, sch, sid, i, rec, c, h, h);
    hide StepOf;
  }

  /** Two neighbouring records of independent fields, in either order. */
  lemma RecordsMeet(rule: Policy, sch: Schema, sid: nat, i: nat, j: nat, r1: seq<Byte>, r2: seq<Byte>, run: Run)
    requires WfSchema(sch) && sid < |sch| && RecordOf(sch[sid], r1, i) && RecordOf(sch[sid], r2, j)
    requires Independent(sch[sid], i, j)
    requires SamePolicy(rule, run.heap, run.heap) && StepsApart(sch, sid, i, j, r1, r2, run)
    ensures StepsApart(sch, sid, j, i, r2, r1, run)
    ensures AlikeRuns(rule, Record(sch, sid, r2, Record(sch, sid, r1, run).run).run,
                      Record(sch, sid, r1, Record(sch, sid, r2, run).run).run)
  {
    hide StepOf, Stepped, CellFor, Admits, DecodeTag, Record, StepsApart, AlikeCells, SamePolicy, AlikeRuns;
    var fs, h := sch[sid], run.heap;
    var x, y := CellFor(fs, run, i), CellFor(fs, run, j);
    BothRecords(sch, sid, i, j, r1, r2, run);
    BothRecords(sch, sid, j, i, r2, r1, run);
    var a, d := StepOf(sch, sid, i, r1, x, h), StepOf(sch, sid, j, r2, y, h);
    StepPolicy(rule, sch, sid, i, r1, x, h);
    StepPolicy(rule, sch, sid, j, r2, y, h);
    var b, c := StepOf(sch, sid, j, r2, y, a.heap), StepOf(sch, sid, i, r1, x, d.heap);
    StepTwice(rule, sch, sid, j, r2, y, a.heap, h);
    StepTwice(rule, sch, sid, i, r1, x, d.heap, h);
    MeetAlike(rule, sch, sid, run, i, a, c, j, b, d);
  }

  lemma MeetAlike(rule: Policy, sch: Schema, sid: nat, run: Run, i: nat, a: StepOut, c: StepOut, j: nat, b: StepOut,
                  d: StepOut)
    requires WfSchema(sch) && sid < |sch| && i < |sch[sid]| && j < |sch[sid]| && Independent(sch[sid], i, j)
    requires AlikeSteps(rule, c, a) && AlikeSteps(rule, b, d)
    ensures var fs := sch[sid];
            AlikeRuns(rule, Stepped(fs, Stepped(fs, run, i, a), j, b), Stepped(fs, Stepped(fs, run, j, d), i, c))
  {
    hide Stepped, AlikeRuns, Independent;
    AlikeBackwards(c.cell.data, a.cell.data);
    AlikeBackwards(c.cell.size, a.cell.size);
    hide Alike;
    StepsMeet(rule, sch, sid, run, i, a, c, j, b, d);
  }

  /** The locals of a run that starts with this struct and this heap. */
  lemma RunItself(rule: Policy, run: Run)
    requires SamePolicy(rule, run.heap, run.heap)
    ensures AlikeRuns(rule, run, run)
  {
    StoreItself(run.store);
  }

  /** Field order does not matter, pointers or not: two neighbouring records of
      independent fields may change places, provided that requests for memory are
      granted by their size. The outcome is the same and the structs are equal up to
      the names of the heap blocks. */
  lemma OrderUpToBlocks(rule: Policy, sch: Schema, sid: nat, i: nat, j: nat, before: seq<Byte>, r1: seq<Byte>,
                        r2: seq<Byte>, after: seq<Byte>, start: Run)
    requires WfSchema(sch) && sid < |sch| && RecordOf(sch[sid], r1, i) && RecordOf(sch[sid], r2, j)
    requires Independent(sch[sid], i, j)
    requires SamePolicy(rule, start.heap, start.heap) && ToTheEnd(Records(sch, sid, before, start))
    requires StepsApart(sch, sid, i, j, r1, r2, Records(sch, sid, before, start).run)
    ensures AlikeRunOuts(rule, Records(sch, sid, before + (r1 + (r2 + after)), start),
                         Records(sch, sid, before + (r2 + (r1 + after)), start))
  {
    hide Record, DecodeTag, SamePolicy, AlikeStores, Independent, RecordOf;
    RunItself(rule, start);
    RecordsAlike(rule, sch, sid, before, start, start);
    var run := Records(sch, sid, before, start).run;
    RecordsConcat(sch, sid, before, r1 + (r2 + after), start);
    RecordsConcat(sch, sid, before, r2 + (r1 + after), start);
    hide Records, AlikeRuns;
    RecordsMeet(rule, sch, sid, i, j, r1, r2, run);
    NotStopped(sch, sid, r1, i, run);
    NotStopped(sch, sid, r2, j, run);
    NotStopped(sch, sid, r2, j, Record(sch, sid, r1, run).run);
    NotStopped(sch, sid, r1, i, Record(sch, sid, r2, run).run);
    TwoRecords(sch, sid, r1, r2, after, run);
    TwoRecords(sch, sid, r2, r1, after, run);
    RecordsAlike(rule, sch, sid, after, Record(sch, sid, r2, Record(sch, sid, r1, run).run).run,
                 Record(sch, sid, r1, Record(sch, sid, r2, run).run).run);
  }

  /** The same for `pb_decode`, which initialises the struct first and releases it
      after a failure. */
  lemma OrderInMessage(rule: Policy, sch: Schema, sid: nat, i: nat, j: nat, before: seq<Byte>, r1: seq<Byte>,
                       r2: seq<Byte>, after: seq<Byte>, m: Store, h: Heap)
    requires WfSchema(sch) && sid < |sch| && RecordOf(sch[sid], r1, i) && RecordOf(sch[sid], r2, j)
    requires Independent(sch[sid], i, j) && SamePolicy(rule, h, h)
    requires var o := Records(sch, sid, before, Start(Defaults.Initialised(sch, sid, m), h));
             ToTheEnd(o) && StepsApart(sch, sid, i, j, r1, r2, o.run)
    ensures AlikeMessages(rule, Decode(sch, sid, before + (r1 + (r2 + after)), m, h),
                          Decode(sch, sid, before + (r2 + (r1 + after)), m, h))
  {
    hide Records, SamePolicy, Alike, AlikeStores, Defaults.SetDefaults, StepsApart, RecordOf, Independent;
    hide Release.ReleaseStruct, RequiredSeen;
    var start := Start(Defaults.Initialised(sch, sid, m), h);
    OrderUpToBlocks(rule, sch, sid, i, j, before, r1, r2, after, start);
    var a := Records(sch, sid, before + (r1 + (r2 + after)), start).run;
    var b := Records(sch, sid, before + (r2 + (r1 + after)), start).run;
    Structs(a.store, b.store);
    ReleaseStructAlike(rule, sch, sid, Sub(a.store), Sub(b.store), a.heap, b.heap);
    Views(Release.ReleaseStruct(sch, sid, Sub(a.store), a.heap).slot,
          Release.ReleaseStruct(sch, sid, Sub(b.store), b.heap).slot);
  }
}
