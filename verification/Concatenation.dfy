/** Concatenation is merge, and what fixed-count arrays take away from that. */
module Concatenation {
  import opened Bits
  import opened Descriptor
  import opened Scalars
  import opened FieldIterator
  import opened Allocator
  import Defaults
  import opened DecodeSpec
  import opened Merge
  import opened Delimiting
  import opened Trace
  import Arrays

  // ---------------------------------------------------------- the condition

  /** The field of the first, or last, fixed-count record; -1 if there is none. */
  function FirstFixed(fs: seq<Field>, s: seq<Byte>): int {
    var t := FixedEvents(fs, Events(fs, s));
    if t == [] then -1 else t[0].field
  }

  function LastFixed(fs: seq<Field>, s: seq<Byte>): int {
    var t := FixedEvents(fs, Events(fs, s));
    if t == [] then -1 else t[|t| - 1].field
  }

  /** The last fixed-count array of `b1` is not the first one of `b2`. */
  predicate Compatible(fs: seq<Field>, b1: seq<Byte>, b2: seq<Byte>) {
    LastFixed(fs, b1) == -1 || LastFixed(fs, b1) != FirstFixed(fs, b2)
  }

  /** The record at the start of `s` is not of a fixed-count field. */
  predicate Uncounted(fs: seq<Field>, s: seq<Byte>) {
    FixedEvents(fs, EventOf(fs, s)) == []
  }

  lemma FirstStep(sch: Schema, sid: nat, s: seq<Byte>, run: Run)
    requires WfSchema(sch) && sid < |sch| && s != []
    requires var o := Record(sch, sid, s, run); o.ok && !o.stopped
    ensures var rest := Record(sch, sid, s, run).rest;
            Uncounted(sch[sid], s) ==> FirstFixed(sch[sid], s) == FirstFixed(sch[sid], rest)
    ensures var fs, rest := sch[sid], Record(sch, sid, s, run).rest;
            LastFixed(fs, s) == if LastFixed(fs, rest) == -1 && !Uncounted(fs, s) then EventOf(fs, s)[0].field
                                else LastFixed(fs, rest)
  {
    hide Record;
    EventsStep(sch, sid, s, run);
    EventFirstOf(sch[sid], s, Events(sch[sid], Record(sch, sid, s, run).rest));
  }

  lemma EventFirstOf(fs: seq<Field>, s: seq<Byte>, t: seq<Event>)
    ensures FixedEvents(fs, EventOf(fs, s) + t) == FixedEvents(fs, EventOf(fs, s)) + FixedEvents(fs, t)
    ensures FixedEvents(fs, EventOf(fs, s)) == if Uncounted(fs, s) then [] else [EventOf(fs, s)[0]]
  {
    hide Elements;
    var e := EventOf(fs, s);
    if e == [] {
      assert e + t == t;
    } else {
      EventFirst(fs, e[0], t);
      EventFirst(fs, e[0], []);
      assert [e[0]] + [] == e;
    }
  }

  lemma CountedFirst(fs: seq<Field>, s: seq<Byte>)
    requires s != [] && !Uncounted(fs, s)
    ensures EventOf(fs, s) != [] && FirstFixed(fs, s) == EventOf(fs, s)[0].field
  {
    hide RecordEnd, EventOf;
    EventFirstOf(fs, s, []);
    match RecordEnd(fs, s)
    case NoSkip =>
    case Skipped(rest) =>
      EventFirstOf(fs, s, Events(fs, rest));
  }

  // ------------------------------------------------------------ other records

  /** The same run with another state of the shared counter. */
  function Counter(run: Run, fixed: int, size: int): Run {
    run.(fixed := fixed, fixedSize := size)
  }

  lemma KnownOther(sch: Schema, sid: nat, i: nat, wire: nat, s: seq<Byte>, run: Run, fixed: int, size: int)
    requires WfSchema(sch) && sid < |sch| && i < |sch[sid]| && !FixedCount(sch[sid][i])
    ensures var o := KnownRecord(sch, sid, i, wire, s, run);
            && KnownRecord(sch, sid, i, wire, s, Counter(run, fixed, size)) == o.(run := Counter(o.run, fixed, size))
            && o.run.fixed == run.fixed && o.run.fixedSize == run.fixedSize
  {
    hide FieldStep;
  }

  /** Records of other fields leave the counter alone and do not look at it. */
  lemma OtherRecord(sch: Schema, sid: nat, s: seq<Byte>, run: Run, fixed: int, size: int)
    requires WfSchema(sch) && sid < |sch| && Uncounted(sch[sid], s)
    ensures var o := Record(sch, sid, s, run);
            && Record(sch, sid, s, Counter(run, fixed, size)) == o.(run := Counter(o.run, fixed, size))
            && o.run.fixed == run.fixed && o.run.fixedSize == run.fixedSize
  {
    hide KnownRecord, Elements;
    match DecodeTag(s)
    case Tag(number, wire, rest) =>
      var i := FirstMatch(sch[sid], number, 0);
      if i < |sch[sid]| {
        EventFirst(sch[sid], EventOf(sch[sid], s)[0], []);
        KnownOther(sch, sid, i, wire, rest, run, fixed, size);
      }
    case _ =>
  }

  /** A record of a fixed-count field. */
  lemma CountedRecord(sch: Schema, sid: nat, s: seq<Byte>, run: Run) returns (i: nat, wire: nat, payload: seq<Byte>)
    requires WfSchema(sch) && sid < |sch| && !Uncounted(sch[sid], s)
    ensures i < |sch[sid]| && FixedCount(sch[sid][i]) && EventOf(sch[sid], s)[0].field == i && |payload| < |s|
    ensures forall r {:trigger Record(sch, sid, s, r)} ::
              Record(sch, sid, s, r) == KnownRecord(sch, sid, i, wire, payload, r)
  {
    hide KnownRecord, Elements;
    var tag := DecodeTag(s);
    i, wire, payload := FirstMatch(sch[sid], tag.number, 0), tag.wire, tag.rest;
    EventFirst(sch[sid], EventOf(sch[sid], s)[0], []);
    assert EventOf(sch[sid], s) == [EventOf(sch[sid], s)[0]] + [];
  }

  lemma CountedMoves(sch: Schema, sid: nat, s: seq<Byte>, run: Run)
    requires WfSchema(sch) && sid < |sch| && !Uncounted(sch[sid], s) && Record(sch, sid, s, run).ok
    ensures Record(sch, sid, s, run).run.fixed == EventOf(sch[sid], s)[0].field
  {
    hide Record, EventOf, Uncounted, Elements;
    var i, wire, payload := CountedRecord(sch, sid, s, run);
    CounterStep(sch, sid, i, wire, payload, run);
  }

  lemma NoneAfterStop(sch: Schema, sid: nat, s: seq<Byte>, run: Run)
    requires WfSchema(sch) && sid < |sch| && s != [] && Record(sch, sid, s, run).stopped
    ensures LastFixed(sch[sid], s) == -1 && Record(sch, sid, s, run).run == run
  {
    hide KnownRecord, TerminatorRecord;
    NothingAfterStop(sch, sid, s, run);
  }

  /** A decoded stream leaves the counter at its last fixed-count field. */
  lemma {:induction false} LastCounted(sch: Schema, sid: nat, s: seq<Byte>, run: Run)
    requires WfSchema(sch) && sid < |sch| && Records(sch, sid, s, run).ok
    ensures var last := LastFixed(sch[sid], s);
            Records(sch, sid, s, run).run.fixed == if last == -1 then run.fixed else last
    decreases |s|
  {
    if s == [] {
    } else {
      hide Record, LastFixed, Uncounted;
      var o := Record(sch, sid, s, run);
      if o.stopped {
        NoneAfterStop(sch, sid, s, run);
      } else {
        FirstStep(sch, sid, s, run);
        if Uncounted(sch[sid], s) {
          OtherRecord(sch, sid, s, run, 0, 0);
        } else {
          CountedMoves(sch, sid, s, run);
        }
        LastCounted(sch, sid, o.rest, o.run);
      }
    }
  }

  // ---------------------------------------------------- when a merge succeeds

  /** The same decode up to the state of the counter, with the same verdict on it. */
  ghost predicate Agree(fs: seq<Field>, a: RunOut, b: RunOut) {
    && Counter(a.run, -1, 0) == Counter(b.run, -1, 0) && FixedDone(fs, a.run) == FixedDone(fs, b.run)
    && a.ok == b.ok && a.stopped == b.stopped && a.rest == b.rest
  }

  /** Entering a fixed-count field from a complete one, or from none. */
  lemma EntersAlike(sch: Schema, sid: nat, s: seq<Byte>, run: Run)
    requires WfSchema(sch) && sid < |sch| && s != [] && !Uncounted(sch[sid], s) && FixedDone(sch[sid], run)
    requires run.fixed == -1 || run.fixed != FirstFixed(sch[sid], s)
    ensures Record(sch, sid, s, run) == Record(sch, sid, s, Counter(run, -1, 0))
  {
    hide Record, EventOf, Uncounted, Elements, FieldStep;
    CountedFirst(sch[sid], s);
    var i, wire, payload := CountedRecord(sch, sid, s, run);
  }

  /** A complete counter of another field is as good as a new one. */
  lemma {:induction false} Lockstep(sch: Schema, sid: nat, s: seq<Byte>, run: Run)
    requires WfSchema(sch) && sid < |sch| && FixedDone(sch[sid], run)
    requires run.fixed == -1 || run.fixed != FirstFixed(sch[sid], s)
    ensures Agree(sch[sid], Records(sch, sid, s, run), Records(sch, sid, s, Counter(run, -1, 0)))
    decreases |s|
  {
    if s == [] {
    } else {
      hide Record, FirstFixed, Uncounted;
      var o := Record(sch, sid, s, run);
      if Uncounted(sch[sid], s) {
        OtherRecord(sch, sid, s, run, -1, 0);
        if o.ok && !o.stopped {
          FirstStep(sch, sid, s, run);
          Lockstep(sch, sid, o.rest, o.run);
        }
      } else {
        EntersAlike(sch, sid, s, run);
      }
    }
  }

  // ------------------------------------------------------- when a merge fails

  /** The counter of `fixed` says that its array is full. */
  predicate Full(fs: seq<Field>, run: Run) {
    0 <= run.fixed < |fs| && FixedCount(fs[run.fixed]) && run.fixedSize == fs[run.fixed].arraySize
  }

  /** A record of a field whose array is full fails, unless it is an empty block,
      which a new counter would not notice either. */
  lemma FullStep(sch: Schema, sid: nat, i: nat, wire: nat, s: seq<Byte>, data: Slot, h: Heap)
    requires WfSchema(sch) && sid < |sch| && i < |sch[sid]| && FixedCount(sch[sid][i])
    ensures sch[sid][i].arraySize > 0
    ensures var n := sch[sid][i].arraySize;
            var a := FieldStep(sch, sid, i, wire, s, Cell(data, Num(n)), h);
            var b := FieldStep(sch, sid, i, wire, s, Cell(data, Num(0)), h);
            !a.ok || (b.ok && b.cell.size == Num(0) && a == b.(cell := b.cell.(size := Num(n))))
  {
    assert WfMessage(sch, sid) && OkField(sch, sid, i);
    hide Delimited, DecScalar, DecValue;
    var n := sch[sid][i].arraySize;
    Arrays.RepeatedStep(sch, sid, i, wire, s, Cell(data, Num(n)), h);
    Arrays.RepeatedStep(sch, sid, i, wire, s, Cell(data, Num(0)), h);
  }

  lemma FullRecord(sch: Schema, sid: nat, i: nat, wire: nat, s: seq<Byte>, run: Run)
    requires WfSchema(sch) && sid < |sch| && i < |sch[sid]| && run.fixed == i && Full(sch[sid], run)
    ensures var a := KnownRecord(sch, sid, i, wire, s, run);
            var b := KnownRecord(sch, sid, i, wire, s, Counter(run, i, 0));
            !a.ok || (b.ok && a.rest == b.rest && a.run.fixed == i && a.run.fixedSize == run.fixedSize
                      && b.run == Counter(a.run, i, 0))
  {
    hide FieldStep;
    FullStep(sch, sid, i, wire, s, CellOf(sch[sid], run.store, i).data, run.heap);
  }

  /** A run with a full counter fails wherever one with an empty counter succeeds. */
  lemma {:induction false} Stuck(sch: Schema, sid: nat, s: seq<Byte>, run: Run)
    requires WfSchema(sch) && sid < |sch| && Full(sch[sid], run)
    requires var o := Records(sch, sid, s, Counter(run, run.fixed, 0)); o.ok && FixedDone(sch[sid], o.run)
    ensures !Records(sch, sid, s, run).ok
    decreases |s|
  {
    var anew := Counter(run, run.fixed, 0);
    NotDone(sch, sid, run);
    if s == [] {
    } else {
      hide Record, Uncounted;
      var o := Record(sch, sid, s, run);
      if Uncounted(sch[sid], s) {
        OtherRecord(sch, sid, s, run, run.fixed, 0);
        if o.ok && !o.stopped {
          Stuck(sch, sid, o.rest, o.run);
        }
      } else if o.ok {
        StuckRecord(sch, sid, s, run);
        Stuck(sch, sid, o.rest, o.run);
      }
    }
  }

  lemma NotDone(sch: Schema, sid: nat, run: Run)
    requires WfSchema(sch) && sid < |sch| && Full(sch[sid], run)
    ensures !FixedDone(sch[sid], Counter(run, run.fixed, 0))
  {
    assert WfMessage(sch, sid) && OkField(sch, sid, run.fixed);
  }

  lemma StuckRecord(sch: Schema, sid: nat, s: seq<Byte>, run: Run)
    requires WfSchema(sch) && sid < |sch| && Full(sch[sid], run) && !Uncounted(sch[sid], s)
    requires Record(sch, sid, s, run).ok && Record(sch, sid, s, Counter(run, run.fixed, 0)).ok
    ensures var a, b := Record(sch, sid, s, run), Record(sch, sid, s, Counter(run, run.fixed, 0));
            && !a.stopped && !b.stopped && a.rest == b.rest && |a.rest| < |s| && Full(sch[sid], a.run)
            && b.run == Counter(a.run, a.run.fixed, 0)
  {
    hide Record, Uncounted, EventOf, Elements;
    NotDone(sch, sid, run);
    var i, wire, payload := CountedRecord(sch, sid, s, run);
    EmptyStays(sch, sid, i, wire, payload, Counter(run, run.fixed, 0));
    FullRecord(sch, sid, i, wire, payload, run);
  }

  /** An incomplete counter admits no other fixed-count field. */
  lemma EmptyStays(sch: Schema, sid: nat, i: nat, wire: nat, s: seq<Byte>, run: Run)
    requires WfSchema(sch) && sid < |sch| && i < |sch[sid]| && FixedCount(sch[sid][i])
    requires KnownRecord(sch, sid, i, wire, s, run).ok && !FixedDone(sch[sid], run)
    ensures run.fixed == i
  {
  }

  /** The stream starts again with the field whose array is full. */
  lemma {:induction false} Clash(sch: Schema, sid: nat, s: seq<Byte>, run: Run)
    requires WfSchema(sch) && sid < |sch| && Full(sch[sid], run) && run.fixed == FirstFixed(sch[sid], s)
    requires var o := Records(sch, sid, s, Counter(run, -1, 0)); o.ok && FixedDone(sch[sid], o.run)
    ensures !Records(sch, sid, s, run).ok
    decreases |s|
  {
    if s == [] {
    } else {
      hide Record, FirstFixed, Uncounted;
      var o := Record(sch, sid, s, run);
      if Uncounted(sch[sid], s) {
        OtherRecord(sch, sid, s, run, -1, 0);
        if o.stopped {
          NoneAfterStopFirst(sch, sid, s, run);
        } else if o.ok {
          FirstStep(sch, sid, s, run);
          Clash(sch, sid, o.rest, o.run);
        }
      } else {
        EntersEmpty(sch, sid, s, run);
        Stuck(sch, sid, s, run);
      }
    }
  }

  lemma NoneAfterStopFirst(sch: Schema, sid: nat, s: seq<Byte>, run: Run)
    requires WfSchema(sch) && sid < |sch| && s != [] && Record(sch, sid, s, run).stopped
    ensures FirstFixed(sch[sid], s) == -1
  {
    hide Record;
    NothingAfterStop(sch, sid, s, run);
  }

  /** A new counter enters the field with an empty one. */
  lemma EntersEmpty(sch: Schema, sid: nat, s: seq<Byte>, run: Run)
    requires WfSchema(sch) && sid < |sch| && s != [] && !Uncounted(sch[sid], s) && run.fixed == FirstFixed(sch[sid], s)
    requires Records(sch, sid, s, Counter(run, -1, 0)).ok
    ensures Records(sch, sid, s, Counter(run, -1, 0)) == Records(sch, sid, s, Counter(run, run.fixed, 0))
  {
    hide Record, EventOf, Uncounted, Elements, FieldStep;
    CountedFirst(sch[sid], s);
    var i, wire, payload := CountedRecord(sch, sid, s, run);
    assert KnownRecord(sch, sid, i, wire, payload, Counter(run, -1, 0)) ==
           KnownRecord(sch, sid, i, wire, payload, Counter(run, i, 0));
  }

  // -------------------------------------------------------- concatenation

  /** Decoding `b2` goes on where `b1` stopped, up to what was seen before and the
      state of the counter. */
  lemma Continued(sch: Schema, sid: nat, b1: seq<Byte>, b2: seq<Byte>, m: Store, h: Heap)
    requires WfSchema(sch) && sid < |sch|
    requires var o := Records(sch, sid, b1, Start(m, h)); o.ok && !o.stopped
    ensures var r := Records(sch, sid, b1, Start(m, h)).run;
            var anew := Counter(Start(r.store, r.heap), r.fixed, r.fixedSize);
            var o := Records(sch, sid, b2, anew);
            Records(sch, sid, b1 + b2, Start(m, h)) == o.(run := Also(o.run, r.seen))
  {
    var r := Records(sch, sid, b1, Start(m, h)).run;
    RecordsConcat(sch, sid, b1, b2, Start(m, h));
    hide Records;
    var anew := Counter(Start(r.store, r.heap), r.fixed, r.fixedSize);
    assert r.seen + {} == r.seen;
    assert Also(anew, r.seen) == r;
    RecordsAlso(sch, sid, b2, anew, r.seen);
  }

  /** Concatenation is merge. When `b1` decodes to its end, and its last fixed-count
      array is not the first one of `b2`, one decode of `b1 + b2` does what decoding
      `b1` and then `b2` on top of it does; it succeeds whenever those do, and may
      only be more tolerant about required fields, which need occur in one of the
      parts only. The condition on the arrays is exact: where both parts decode, the
      whole decodes, with the same result, if and only if it holds. */
  lemma ConcatenationIsMerge(sch: Schema, sid: nat, b1: seq<Byte>, b2: seq<Byte>, m: Store, h: Heap)
    requires WfSchema(sch) && sid < |sch|
    requires DecodeNoInit(sch, sid, b1, m, h).ok && !Records(sch, sid, b1, Start(m, h)).stopped
    ensures var first := DecodeNoInit(sch, sid, b1, m, h);
            var second := DecodeNoInit(sch, sid, b2, first.store, first.heap);
            var whole := DecodeNoInit(sch, sid, b1 + b2, m, h);
            var o := Records(sch, sid, b2, Start(first.store, first.heap));
            && (Compatible(sch[sid], b1, b2) ==>
                  whole == second.(ok := whole.ok) && whole.ok == (o.ok && FixedDone(sch[sid], o.run)))
            && (second.ok ==> (whole.ok <==> Compatible(sch[sid], b1, b2)))
            && (second.ok ==> (whole == second <==> Compatible(sch[sid], b1, b2)))
  {
    var fs, r := sch[sid], Records(sch, sid, b1, Start(m, h)).run;
    Continued(sch, sid, b1, b2, m, h);
    LastCounted(sch, sid, b1, Start(m, h));
    var anew := Counter(Start(r.store, r.heap), r.fixed, r.fixedSize);
    assert Counter(anew, -1, 0) == Start(r.store, r.heap);
    LastInRange(fs, b1);
    hide Records, LastFixed, FirstFixed;
    if Compatible(fs, b1, b2) {
      Lockstep(sch, sid, b2, anew);
    } else if DecodeNoInit(sch, sid, b2, r.store, r.heap).ok {
      Clash(sch, sid, b2, anew);
    }
  }

  lemma {:induction false} FixedEventsFields(fs: seq<Field>, t: seq<Event>)
    ensures forall k {:trigger FixedEvents(fs, t)[k]} :: 0 <= k < |FixedEvents(fs, t)| ==>
              FixedEvents(fs, t)[k].field < |fs| && FixedCount(fs[FixedEvents(fs, t)[k].field])
  {
    if t == [] {
    } else {
      FixedEventsFields(fs, t[1..]);
    }
  }

  lemma LastInRange(fs: seq<Field>, s: seq<Byte>)
    ensures var i := LastFixed(fs, s); i == -1 || (0 <= i < |fs| && FixedCount(fs[i]))
  {
    FixedEventsFields(fs, Events(fs, s));
  }

  /** The same for `pb_decode`, which initialises the struct first. */
  lemma DecodeThenMerge(sch: Schema, sid: nat, b1: seq<Byte>, b2: seq<Byte>, m: Store, h: Heap)
    requires WfSchema(sch) && sid < |sch|
    requires Decode(sch, sid, b1, m, h).ok
    requires !Records(sch, sid, b1, Start(Defaults.Initialised(sch, sid, m), h)).stopped
    requires var first := Decode(sch, sid, b1, m, h);
             DecodeNoInit(sch, sid, b2, first.store, first.heap).ok
    ensures var first := Decode(sch, sid, b1, m, h);
            var whole := Decode(sch, sid, b1 + b2, m, h);
            && (whole.ok <==> Compatible(sch[sid], b1, b2))
            && (whole.ok ==> whole == DecodeNoInit(sch, sid, b2, first.store, first.heap))
  {
    hide DecodeNoInit, Records, Compatible;
    ConcatenationIsMerge(sch, sid, b1, b2, Defaults.Initialised(sch, sid, m), h);
  }
}
