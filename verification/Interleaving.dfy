/** Two fixed-count arrays share one counter, so their records may change places only
    if the runs of the new order are complete; that is also enough. */
module Interleaving {
  import opened Bits
  import opened Descriptor
  import opened Scalars
  import opened FieldIterator
  import opened Allocator
  import opened DecodeSpec
  import opened Locality
  import opened Merge
  import opened UpToBlocks
  import opened Delimiting
  import opened Trace
  import opened Concatenation
  import opened FieldOrder
  import Arrays

  // ----------------------------------------------------------------- the trace

  /** What a decoded record of a fixed-count field adds to the shared counter. */
  function Added(run: Run, i: nat, now: Run): int {
    now.fixedSize - if run.fixed == i then run.fixedSize else 0
  }

  lemma RecordEvent(sch: Schema, sid: nat, s: seq<Byte>, i: nat, run: Run)
    requires WfSchema(sch) && sid < |sch| && RecordOf(sch[sid], s, i) && FixedCount(sch[sid][i])
    requires Record(sch, sid, s, run).ok
    ensures var n := Added(run, i, Record(sch, sid, s, run).run); 0 <= n && EventOf(sch[sid], s) == [Event(i, n)]
  {
    hide KnownRecord, Elements;
    var t := DecodeTag(s);
    CounterStep(sch, sid, i, t.wire, t.rest, run);
  }

  /** A record is one event, however the bytes go on. */
  lemma RecordTrace(sch: Schema, sid: nat, rec: seq<Byte>, i: nat, x: seq<Byte>, run: Run)
    requires WfSchema(sch) && sid < |sch| && RecordOf(sch[sid], rec, i) && FixedCount(sch[sid][i])
    requires Record(sch, sid, rec, run).ok && Record(sch, sid, rec, run).rest == []
    ensures var n := Added(run, i, Record(sch, sid, rec, run).run);
            0 <= n && Events(sch[sid], rec + x) == [Event(i, n)] + Events(sch[sid], x)
  {
    hide Record, Elements, EventOf, RecordEnd;
    NotStopped(sch, sid, rec, i, run);
    RecordLocal(sch, sid, rec, x, run);
    assert [] + x == x;
    AppendNonEmpty(rec, x);
    TagLocal(rec, x);
    RecordEvent(sch, sid, rec + x, i, run);
    EventsStep(sch, sid, rec + x, run);
  }

  /** The records already decoded leave the counter to the rest of the trace. */
  lemma {:induction false} TracePrefix(sch: Schema, sid: nat, before: seq<Byte>, s: seq<Byte>, run: Run)
    requires WfSchema(sch) && sid < |sch| && FixedInRange(sch[sid], run) && ToTheEnd(Records(sch, sid, before, run))
    ensures var fs, now := sch[sid], Records(sch, sid, before, run).run;
            && FixedInRange(fs, now)
            && (CompleteFrom(fs, run.fixed, run.fixedSize, FixedEvents(fs, Events(fs, before + s))) <==>
                CompleteFrom(fs, now.fixed, now.fixedSize, FixedEvents(fs, Events(fs, s))))
    decreases |before|
  {
    hide Record, CompleteFrom, FixedEvents, EventOf;
    if before == [] {
      assert before + s == s;
    } else {
      var o := Record(sch, sid, before, run);
      RecordLocal(sch, sid, before, s, run);
      AppendNonEmpty(before, s);
      EventsStep(sch, sid, before + s, run);
      FixedRecord(sch, sid, before + s, run, Events(sch[sid], o.rest + s));
      TracePrefix(sch, sid, o.rest, s, o.run);
    }
  }

  /** The array is full, or nothing has been stored and its run is still to come. */
  predicate Settled(fs: seq<Field>, i: nat, n: int, t: seq<Event>) {
    if n == 0 then t != [] && t[0].field == i else n == ArraySize(fs, i) && (t == [] || t[0].field != i)
  }

  lemma SettledFrom(fs: seq<Field>, i: nat, n: int, j: nat, m: int, t: seq<Event>)
    requires i != j && ArraySize(fs, i) > 0 && CompleteFrom(fs, i, n, t) && CompleteFrom(fs, j, m, t)
    requires n == 0 || n == ArraySize(fs, i)
    ensures Settled(fs, i, n, t)
  {
    assert t[..0] == [] && t[0..] == t;
  }

  /** Complete in both orders: each record fills its array, or is an empty block of the
      array that was full before. */
  lemma BothComplete(fs: seq<Field>, fixed: int, size: int, a: Event, b: Event, t: seq<Event>)
    requires -1 <= fixed && a.field != b.field && ArraySize(fs, a.field) > 0 && ArraySize(fs, b.field) > 0
    requires CompleteFrom(fs, fixed, size, [a] + ([b] + t)) && CompleteFrom(fs, fixed, size, [b] + ([a] + t))
    ensures fixed >= 0 ==> size == ArraySize(fs, fixed)
    ensures a.elems == (if fixed == a.field then 0 else ArraySize(fs, a.field))
    ensures b.elems == (if fixed == b.field then 0 else ArraySize(fs, b.field))
    ensures Settled(fs, a.field, a.elems, t) && Settled(fs, b.field, b.elems, t)
  {
    hide CompleteFrom;
    CompleteStep(fs, fixed, size, a, [b] + t);
    CompleteStep(fs, a.field, if fixed == a.field then size + a.elems else a.elems, b, t);
    CompleteStep(fs, fixed, size, b, [a] + t);
    CompleteStep(fs, b.field, if fixed == b.field then size + b.elems else b.elems, a, t);
    SettledFrom(fs, a.field, a.elems, b.field, b.elems, t);
    SettledFrom(fs, b.field, b.elems, a.field, a.elems, t);
  }

  // ------------------------------------------------------------ what comes after

  /** A settled counter is as good as none. */
  lemma {:induction false} SettledAlike(sch: Schema, sid: nat, s: seq<Byte>, run: Run)
    requires WfSchema(sch) && sid < |sch| && 0 <= run.fixed < |sch[sid]| && FixedCount(sch[sid][run.fixed])
    requires Settled(sch[sid], run.fixed, run.fixedSize, FixedEvents(sch[sid], Events(sch[sid], s)))
    requires Records(sch, sid, s, run).ok || Records(sch, sid, s, Counter(run, -1, 0)).ok
    ensures Agree(sch[sid], Records(sch, sid, s, run), Records(sch, sid, s, Counter(run, -1, 0)))
    decreases |s|
  {
    if run.fixedSize != 0 {
      Lockstep(sch, sid, s, run);
    } else if s == [] {
    } else {
      hide Record, Uncounted, EventOf, RecordEnd, Agree;
      var o := Record(sch, sid, s, run);
      if Uncounted(sch[sid], s) {
        OtherSettled(sch, sid, s, run);
        if o.ok && !o.stopped {
          SettledAlike(sch, sid, o.rest, o.run);
        }
      } else {
        CountedFirst(sch[sid], s);
        EntersNew(sch, sid, s, run);
        AgreesItself(sch[sid], Records(sch, sid, s, run));
      }
    }
  }

  lemma AgreesItself(fs: seq<Field>, o: RunOut)
    ensures Agree(fs, o, o)
  {
  }

  /** Another record leaves a settled counter settled. */
  lemma OtherSettled(sch: Schema, sid: nat, s: seq<Byte>, run: Run)
    requires WfSchema(sch) && sid < |sch| && 0 <= run.fixed < |sch[sid]| && s != [] && Uncounted(sch[sid], s)
    requires run.fixedSize == 0
    requires Settled(sch[sid], run.fixed, 0, FixedEvents(sch[sid], Events(sch[sid], s)))
    ensures var o := Record(sch, sid, s, run);
            && Record(sch, sid, s, Counter(run, -1, 0)) == o.(run := Counter(o.run, -1, 0))
            && o.run.fixed == run.fixed && o.run.fixedSize == 0 && !o.stopped
            && (o.ok ==> Settled(sch[sid], run.fixed, 0, FixedEvents(sch[sid], Events(sch[sid], o.rest))))
  {
    hide Record, Uncounted, EventOf, RecordEnd;
    var o := Record(sch, sid, s, run);
    OtherRecord(sch, sid, s, run, -1, 0);
    if o.stopped {
      NothingAfterStop(sch, sid, s, run);
    } else if o.ok {
      EventsStep(sch, sid, s, run);
      EventFirstOf(sch[sid], s, Events(sch[sid], o.rest));
    }
  }

  lemma EntersNew(sch: Schema, sid: nat, s: seq<Byte>, run: Run)
    requires WfSchema(sch) && sid < |sch| && s != [] && !Uncounted(sch[sid], s)
    requires run.fixed == EventOf(sch[sid], s)[0].field && run.fixedSize == 0
    ensures Record(sch, sid, s, run) == Record(sch, sid, s, Counter(run, -1, 0))
  {
    hide Record, EventOf, Uncounted, Elements, FieldStep;
    var i, wire, payload := CountedRecord(sch, sid, s, run);
  }

  // ---------------------------------------------------------------- the steps

  /** A block that adds no element to an array that has room is empty. */
  lemma NoElements(f: Field, s: seq<Byte>, items: seq<Slot>)
    requires f.arraySize > 0
    requires var p := PackedItems(f, s, items, 0); p.ok && p.rest == [] && p.count == 0
    ensures s == []
  {
    hide DecScalar;
    PackedCount(f, s, items, 0);
    SameScalar(f, s, ItemAt(items, 0), Undef);
  }

  /** An empty block does the same to a full array as to an empty one. */
  lemma EmptyStep(sch: Schema, sid: nat, i: nat, rec: seq<Byte>, data: Slot, h: Heap)
    requires WfSchema(sch) && sid < |sch| && RecordOf(sch[sid], rec, i) && FixedCount(sch[sid][i])
    ensures var n := sch[sid][i].arraySize;
            var a := StepOf(sch, sid, i, rec, Cell(data, Num(n)), h);
            var b := StepOf(sch, sid, i, rec, Cell(data, Num(0)), h);
            a.ok || (b.ok && b.cell.size == Num(0)) ==>
              && a.ok && b.ok && b.cell.size == Num(0) && a == b.(cell := b.cell.(size := Num(n)))
  {
    hide Delimited, DecodeTag;
    var n, tag := sch[sid][i].arraySize, DecodeTag(rec);
    assert WfMessage(sch, sid) && OkField(sch, sid, i);
    EmptyFieldStep(sch, sid, i, tag.wire, tag.rest, data, h);
  }

  lemma EmptyFieldStep(sch: Schema, sid: nat, i: nat, wire: nat, s: seq<Byte>, data: Slot, h: Heap)
    requires WfSchema(sch) && sid < |sch| && i < |sch[sid]| && FixedCount(sch[sid][i])
    ensures var n := sch[sid][i].arraySize;
            var a := FieldStep(sch, sid, i, wire, s, Cell(data, Num(n)), h);
            var b := FieldStep(sch, sid, i, wire, s, Cell(data, Num(0)), h);
            a.ok || (b.ok && b.cell.size == Num(0)) ==>
              && a.ok && b.ok && b.cell.size == Num(0) && a == b.(cell := b.cell.(size := Num(n)))
  {
    hide Delimited, DecValue;
    var n := sch[sid][i].arraySize;
    assert WfMessage(sch, sid) && OkField(sch, sid, i);
    FullStep(sch, sid, i, wire, s, data, h);
    Arrays.RepeatedStep(sch, sid, i, wire, s, Cell(data, Num(n)), h);
    Arrays.RepeatedStep(sch, sid, i, wire, s, Cell(data, Num(0)), h);
    hide FieldStep, DecScalar;
    var b := StaticPacked(sch[sid][i], s, Cell(data, Num(0)), h);
    if Delimited(s).Chunk? && b.ok && b.cell.size == Num(0) {
      NoElements(sch[sid][i], Delimited(s).body, Items(data));
    }
  }

  /** A record as a step of its array, taken from an empty array or, without elements,
      from a full one. */
  lemma StepFromEmpty(sch: Schema, sid: nat, i: nat, rec: seq<Byte>, run: Run)
    requires WfSchema(sch) && sid < |sch| && RecordOf(sch[sid], rec, i) && FixedCount(sch[sid][i])
    requires FixedDone(sch[sid], run)
    ensures var fs := sch[sid];
            var data := CellOf(fs, run.store, i).data;
            var b := StepOf(sch, sid, i, rec, Cell(data, Num(0)), run.heap);
            var n := if run.fixed == i then fs[i].arraySize else 0;
            var o := Record(sch, sid, rec, run);
            var done := Stepped(fs, run, i, b.(cell := Cell(b.cell.data, Num(n + Number(b.cell.size)))));
            (o.ok || (b.ok && b.cell.size.Num? && (n == 0 || b.cell.size == Num(0)))) ==>
              && o.ok && b.ok && b.cell.size.Num? && o == RunOut(true, false, b.rest, done)
  {
    hide StepOf, DecodeTag;
    RecordIsStep(sch, sid, rec, i, run);
    EmptyStep(sch, sid, i, rec, CellOf(sch[sid], run.store, i).data, run.heap);
    StepCounts(sch, sid, i, rec, Cell(CellOf(sch[sid], run.store, i).data, Num(0)), run.heap);
  }

  lemma StepCounts(sch: Schema, sid: nat, i: nat, rec: seq<Byte>, c: Cell, h: Heap)
    requires WfSchema(sch) && sid < |sch| && RecordOf(sch[sid], rec, i) && FixedCount(sch[sid][i])
    ensures StepOf(sch, sid, i, rec, c, h).ok ==> StepOf(sch, sid, i, rec, c, h).cell.size.Num?
  {
    hide FieldStep, DecodeTag;
    var t := DecodeTag(rec);
    ArrayStepCount(sch, sid, i, t.wire, t.rest, c, h);
  }

  // ------------------------------------------------------------- both orders

  lemma NoCounter(fs: seq<Field>, m: Store, i: nat, c: Cell, size: Slot)
    requires i < |fs| && fs[i].sizeOffset == 0
    ensures PutCell(fs, m, i, c) == PutCell(fs, m, i, Cell(c.data, size))
  {
  }

  /** The same data in both arrays, whichever is written first. */
  lemma StoresMeet(sch: Schema, sid: nat, m: Store, i: nat, a: Cell, c: Cell, j: nat, b: Cell, d: Cell)
    requires WfSchema(sch) && sid < |sch| && i < |sch[sid]| && j < |sch[sid]| && i != j
    requires FixedCount(sch[sid][i]) && FixedCount(sch[sid][j]) && Alike(a.data, c.data) && Alike(b.data, d.data)
    ensures AlikeStores(PutCell(sch[sid], PutCell(sch[sid], m, i, a), j, b),
                        PutCell(sch[sid], PutCell(sch[sid], m, j, d), i, c))
  {
    hide Alike, AlikeStores, PutCell, WfTable;
    var fs := sch[sid];
    assert WfMessage(sch, sid);
    ApartArrays(fs, i, j);
    StoreItself(m);
    AlikeItself(Undef);
    var a1, b1, c1, d1 := Cell(a.data, Undef), Cell(b.data, Undef), Cell(c.data, Undef), Cell(d.data, Undef);
    NoCounter(fs, m, i, a, Undef);
    NoCounter(fs, PutCell(fs, m, i, a), j, b, Undef);
    NoCounter(fs, m, j, d, Undef);
    NoCounter(fs, PutCell(fs, m, j, d), i, c, Undef);
    CellsPut(fs, m, m, i, a1, c1);
    CellsPut(fs, PutCell(fs, m, i, a1), PutCell(fs, m, i, c1), j, b1, d1);
    PutCommutes(sch, sid, m, i, c1, j, d1);
  }

  lemma ApartArrays(fs: seq<Field>, i: nat, j: nat)
    requires i < |fs| && j < |fs| && i != j && FixedCount(fs[i])
    ensures UnionHead(fs, i) != UnionHead(fs, j)
  {
    if UnionHead(fs, i) == UnionHead(fs, j) {
      OneOfHead(fs, i, j);
    }
  }

  /** The run after a record that brings `e` elements. */
  ghost predicate Brought(fs: seq<Field>, run: Run, i: nat, e: int, data: Slot, h: Heap, now: Run)
    requires i < |fs|
  {
    var n := e + if run.fixed == i then fs[i].arraySize else 0;
    && now.store == PutCell(fs, run.store, i, Cell(data, Num(n))) && now.heap == h
    && now.fixed == i && now.fixedSize == n && now.seen == run.seen + Seen(fs, i)
  }

  /** A record after complete runs does what its step does to an empty array. */
  lemma BringingStep(sch: Schema, sid: nat, i: nat, rec: seq<Byte>, run: Run) returns (b: StepOut, e: int)
    requires WfSchema(sch) && sid < |sch| && RecordOf(sch[sid], rec, i) && FixedCount(sch[sid][i])
    requires FixedDone(sch[sid], run) && Record(sch, sid, rec, run).ok
    ensures b == StepOf(sch, sid, i, rec, Cell(CellOf(sch[sid], run.store, i).data, Num(0)), run.heap)
    ensures var fs, o := sch[sid], Record(sch, sid, rec, run);
            && e == Added(run, i, o.run) && b.ok && b.cell.size == Num(e) && o.rest == b.rest && !o.stopped
            && Brought(fs, run, i, e, b.cell.data, b.heap, o.run)
  {
    hide StepOf, DecodeTag, Record, WfTable, CellOf, PutCell;
    b := StepOf(sch, sid, i, rec, Cell(CellOf(sch[sid], run.store, i).data, Num(0)), run.heap);
    StepFromEmpty(sch, sid, i, rec, run);
    e := Number(b.cell.size);
  }

  /** The other direction: such a step makes a record. */
  lemma BringingRecord(sch: Schema, sid: nat, i: nat, rec: seq<Byte>, run: Run, b: StepOut, e: int)
    requires WfSchema(sch) && sid < |sch| && RecordOf(sch[sid], rec, i) && FixedCount(sch[sid][i])
    requires FixedDone(sch[sid], run) && b.ok && b.cell.size == Num(e) && (run.fixed == i ==> e == 0)
    requires b == StepOf(sch, sid, i, rec, Cell(CellOf(sch[sid], run.store, i).data, Num(0)), run.heap)
    ensures var o := Record(sch, sid, rec, run);
            o.ok && o.rest == b.rest && !o.stopped && Brought(sch[sid], run, i, e, b.cell.data, b.heap, o.run)
  {
    hide StepOf, DecodeTag, Record, WfTable, CellOf, PutCell;
    StepFromEmpty(sch, sid, i, rec, run);
  }

  /** The elements each of two records brings: they fill its array, unless that was full
      before. */
  predicate Fill(fs: seq<Field>, fixed: int, i: nat, e: int)
    requires i < |fs|
  {
    e == if fixed == i then 0 else fs[i].arraySize
  }

  lemma FillsUp(fs: seq<Field>, run: Run, i: nat, e: int, data: Slot, h: Heap, now: Run)
    requires i < |fs| && Fill(fs, run.fixed, i, e) && Brought(fs, run, i, e, data, h, now)
    ensures FixedDone(fs, now) && now.fixed == i
  {
  }

  /** The two runs differ in the counter, and in the names of the blocks. */
  ghost predicate MeetUp(rule: Policy, a: Run, b: Run) {
    AlikeRuns(rule, Counter(a, -1, 0), Counter(b, -1, 0))
  }

  /** Two such records in either order. */
  lemma TwoOrders(rule: Policy, sch: Schema, sid: nat, i: nat, j: nat, r1: seq<Byte>, r2: seq<Byte>, run: Run)
      returns (e1: nat, e2: nat)
    requires WfSchema(sch) && sid < |sch| && RecordOf(sch[sid], r1, i) && RecordOf(sch[sid], r2, j) && i != j
    requires FixedCount(sch[sid][i]) && FixedCount(sch[sid][j]) && SamePolicy(rule, run.heap, run.heap)
    requires FixedDone(sch[sid], run) && StepsApart(sch, sid, i, j, r1, r2, run)
    requires Fill(sch[sid], run.fixed, i, Added(run, i, Record(sch, sid, r1, run).run))
    requires var run1 := Record(sch, sid, r1, run).run;
             Fill(sch[sid], run.fixed, j, Added(run1, j, Record(sch, sid, r2, run1).run))
    ensures StepsApart(sch, sid, j, i, r2, r1, run)
    ensures var one := Record(sch, sid, r2, Record(sch, sid, r1, run).run).run;
            var two := Record(sch, sid, r1, Record(sch, sid, r2, run).run).run;
            MeetUp(rule, one, two) && one.fixed == j && one.fixedSize == e2 && two.fixed == i && two.fixedSize == e1
    ensures Fill(sch[sid], run.fixed, i, e1) && Fill(sch[sid], run.fixed, j, e2)
  {
    hide StepOf, DecodeTag, Record, WfTable, CellOf, PutCell, Alike, AlikeStores;
    var fs := sch[sid];
    assert WfMessage(sch, sid);
    ApartArrays(fs, i, j);
    var run1, x, y := Record(sch, sid, r1, run).run, CellOf(fs, run.store, i).data, CellOf(fs, run.store, j).data;
    var a, n := BringingStep(sch, sid, i, r1, run);
    FillsUp(fs, run, i, n, a.cell.data, a.heap, run1);
    var b, m := BringingStep(sch, sid, j, r2, run1);
    e1, e2 := n, m;
    PutElsewhere(sch, sid, run.store, i, Cell(a.cell.data, Num(run1.fixedSize)), j);
    StepPolicy(rule, sch, sid, i, r1, Cell(x, Num(0)), run.heap);
    StepTwice(rule, sch, sid, j, r2, Cell(y, Num(0)), a.heap, run.heap);
    var d := StepOf(sch, sid, j, r2, Cell(y, Num(0)), run.heap);
    Views(b.cell.size, d.cell.size);
    BringingRecord(sch, sid, j, r2, run, d, m);
    var run2 := Record(sch, sid, r2, run).run;
    FillsUp(fs, run, j, m, d.cell.data, d.heap, run2);
    PutElsewhere(sch, sid, run.store, j, Cell(d.cell.data, Num(run2.fixedSize)), i);
    StepTwice(rule, sch, sid, i, r1, Cell(x, Num(0)), run.heap, d.heap);
    var c := StepOf(sch, sid, i, r1, Cell(x, Num(0)), d.heap);
    Views(a.cell.size, c.cell.size);
    BringingRecord(sch, sid, i, r1, run2, c, n);
    StoresMeet(sch, sid, run.store, i, Cell(a.cell.data, Num(run1.fixedSize)), Cell(c.cell.data, Num(n)),
               j, Cell(b.cell.data, Num(m)), Cell(d.cell.data, Num(run2.fixedSize)));
    SetCommutes(run.seen, Seen(fs, i), Seen(fs, j));
  }

  /** The traces of both orders, behind what was decoded before. */
  lemma BothTraces(sch: Schema, sid: nat, i: nat, j: nat, r1: seq<Byte>, r2: seq<Byte>, after: seq<Byte>, run: Run)
    requires WfSchema(sch) && sid < |sch| && RecordOf(sch[sid], r1, i) && RecordOf(sch[sid], r2, j)
    requires FixedCount(sch[sid][i]) && FixedCount(sch[sid][j]) && StepsApart(sch, sid, i, j, r1, r2, run)
    ensures var fs, run1 := sch[sid], Record(sch, sid, r1, run).run;
            var n, m := Added(run, i, run1), Added(run1, j, Record(sch, sid, r2, run1).run);
            var t := FixedEvents(fs, Events(fs, after));
            && 0 <= n && 0 <= m
            && FixedEvents(fs, Events(fs, r1 + (r2 + after))) == [Event(i, n)] + ([Event(j, m)] + t)
            && FixedEvents(fs, Events(fs, r2 + (r1 + after))) == [Event(j, m)] + ([Event(i, n)] + t)
  {
    hide Record, DecodeTag, FixedEvents, RecordEnd, Elements;
    var fs, run1 := sch[sid], Record(sch, sid, r1, run).run;
    RecordTrace(sch, sid, r1, i, r2 + after, run);
    RecordTrace(sch, sid, r1, i, after, run);
    RecordTrace(sch, sid, r2, j, after, run1);
    RecordTrace(sch, sid, r2, j, r1 + after, run1);
    hide Events;
    var a, b := Event(i, Added(run, i, run1)), Event(j, Added(run1, j, Record(sch, sid, r2, run1).run));
    EventFirst(fs, a, Events(fs, r2 + after));
    EventFirst(fs, a, Events(fs, after));
    EventFirst(fs, b, Events(fs, after));
    EventFirst(fs, b, Events(fs, r1 + after));
  }

  /** Decoding goes on after both records. */
  lemma GoesOn(sch: Schema, sid: nat, i: nat, j: nat, before: seq<Byte>, r1: seq<Byte>, r2: seq<Byte>, after: seq<Byte>,
               start: Run)
    requires WfSchema(sch) && sid < |sch| && RecordOf(sch[sid], r1, i) && RecordOf(sch[sid], r2, j)
    requires ToTheEnd(Records(sch, sid, before, start))
    requires StepsApart(sch, sid, i, j, r1, r2, Records(sch, sid, before, start).run)
    ensures var run := Records(sch, sid, before, start).run;
            Records(sch, sid, before + (r1 + (r2 + after)), start) ==
            Records(sch, sid, after, Record(sch, sid, r2, Record(sch, sid, r1, run).run).run)
  {
    hide Record, DecodeTag;
    var run := Records(sch, sid, before, start).run;
    RecordsConcat(sch, sid, before, r1 + (r2 + after), start);
    NotStopped(sch, sid, r1, i, run);
    NotStopped(sch, sid, r2, j, Record(sch, sid, r1, run).run);
    TwoRecords(sch, sid, r1, r2, after, run);
  }

  /** Runs that meet, each with its array settled, decode the rest alike. */
  lemma RestAlike(rule: Policy, sch: Schema, sid: nat, s: seq<Byte>, a: Run, b: Run)
    requires WfSchema(sch) && sid < |sch| && MeetUp(rule, a, b) && Records(sch, sid, s, a).ok
    requires 0 <= a.fixed < |sch[sid]| && FixedCount(sch[sid][a.fixed])
    requires 0 <= b.fixed < |sch[sid]| && FixedCount(sch[sid][b.fixed])
    requires var t := FixedEvents(sch[sid], Events(sch[sid], s));
             Settled(sch[sid], a.fixed, a.fixedSize, t) && Settled(sch[sid], b.fixed, b.fixedSize, t)
    ensures var o, p := Records(sch, sid, s, a), Records(sch, sid, s, b);
            && p.ok && o.stopped == p.stopped && o.rest == p.rest && MeetUp(rule, o.run, p.run)
            && FixedDone(sch[sid], o.run) == FixedDone(sch[sid], p.run)
  {
    hide Records, Settled, FixedEvents, Events, SamePolicy, AlikeStores;
    SettledAlike(sch, sid, s, a);
    RecordsAlike(rule, sch, sid, s, Counter(a, -1, 0), Counter(b, -1, 0));
    SettledAlike(sch, sid, s, b);
  }

  /** Two neighbouring records of different fixed-count arrays: when one order decodes, the
      other one does, with the same result up to the names of the blocks, if and only if
      every run of records in it is complete, which can be read off its bytes. */
  lemma FixedOrderExactly(rule: Policy, sch: Schema, sid: nat, i: nat, j: nat, before: seq<Byte>, r1: seq<Byte>,
                          r2: seq<Byte>, after: seq<Byte>, m: Store, h: Heap)
    requires WfSchema(sch) && sid < |sch| && RecordOf(sch[sid], r1, i) && RecordOf(sch[sid], r2, j) && i != j
    requires FixedCount(sch[sid][i]) && FixedCount(sch[sid][j]) && SamePolicy(rule, h, h)
    requires ToTheEnd(Records(sch, sid, before, Start(m, h)))
    requires StepsApart(sch, sid, i, j, r1, r2, Records(sch, sid, before, Start(m, h)).run)
    requires DecodeNoInit(sch, sid, before + (r1 + (r2 + after)), m, h).ok
    ensures var fs, swapped := sch[sid], before + (r2 + (r1 + after));
            var one := DecodeNoInit(sch, sid, before + (r1 + (r2 + after)), m, h);
            var two := DecodeNoInit(sch, sid, swapped, m, h);
            && (two.ok <==> CompleteRuns(fs, FixedEvents(fs, Events(fs, swapped))))
            && (two.ok ==> AlikeMessages(rule, one, two))
  {
    var fs, start := sch[sid], Start(m, h);
    var first, swapped := before + (r1 + (r2 + after)), before + (r2 + (r1 + after));
    FixedCountExact(sch, sid, first, m, h);
    if DecodeNoInit(sch, sid, swapped, m, h).ok {
      FixedCountExact(sch, sid, swapped, m, h);
    }
    if CompleteRuns(fs, FixedEvents(fs, Events(fs, swapped))) {
      SwapComplete(rule, sch, sid, i, j, before, r1, r2, after, start);
    }
  }

  lemma SwapComplete(rule: Policy, sch: Schema, sid: nat, i: nat, j: nat, before: seq<Byte>, r1: seq<Byte>,
                     r2: seq<Byte>, after: seq<Byte>, start: Run)
    requires WfSchema(sch) && sid < |sch| && RecordOf(sch[sid], r1, i) && RecordOf(sch[sid], r2, j) && i != j
    requires FixedCount(sch[sid][i]) && FixedCount(sch[sid][j]) && SamePolicy(rule, start.heap, start.heap)
    requires start.fixed == -1 && start.fixedSize == 0 && ToTheEnd(Records(sch, sid, before, start))
    requires StepsApart(sch, sid, i, j, r1, r2, Records(sch, sid, before, start).run)
    requires Records(sch, sid, before + (r1 + (r2 + after)), start).ok
    requires var fs := sch[sid];
             && CompleteRuns(fs, FixedEvents(fs, Events(fs, before + (r1 + (r2 + after)))))
             && CompleteRuns(fs, FixedEvents(fs, Events(fs, before + (r2 + (r1 + after)))))
    ensures var o := Records(sch, sid, before + (r1 + (r2 + after)), start);
            var p := Records(sch, sid, before + (r2 + (r1 + after)), start);
            && p.ok && o.rest == p.rest && MeetUp(rule, o.run, p.run)
            && FixedDone(sch[sid], o.run) == FixedDone(sch[sid], p.run)
  {
    hide Record, DecodeTag, FixedEvents, Events, CompleteRuns, SamePolicy, AlikeStores, Settled;
    var fs, run := sch[sid], Records(sch, sid, before, start).run;
    assert WfMessage(sch, sid) && OkField(sch, sid, i) && OkField(sch, sid, j);
    RunItself(rule, start);
    RecordsAlike(rule, sch, sid, before, start, start);
    TracePrefix(sch, sid, before, r1 + (r2 + after), start);
    TracePrefix(sch, sid, before, r2 + (r1 + after), start);
    BothTraces(sch, sid, i, j, r1, r2, after, run);
    var run1 := Record(sch, sid, r1, run).run;
    var a, b := Event(i, Added(run, i, run1)), Event(j, Added(run1, j, Record(sch, sid, r2, run1).run));
    var t := FixedEvents(fs, Events(fs, after));
    hide CompleteFrom, Added, StepsApart, Records;
    BothComplete(fs, run.fixed, run.fixedSize, a, b, t);
    var e1, e2 := TwoOrders(rule, sch, sid, i, j, r1, r2, run);
    GoesOn(sch, sid, i, j, before, r1, r2, after, start);
    GoesOn(sch, sid, j, i, before, r2, r1, after, start);
    RestAlike(rule, sch, sid, after, Record(sch, sid, r2, run1).run,
              Record(sch, sid, r1, Record(sch, sid, r2, run).run).run);
  }
}
