/** What a decode is told by its input: the known records in stream order. The
    one shared counter of fixed-count fields and the bitmap of required fields
    are exact in terms of it. */
module Trace {
  import opened Bits
  import opened Descriptor
  import opened Scalars
  import opened FieldIterator
  import opened DecodeSpec
  import opened Delimiting
  import Arrays
  import RequiredFields

  /** A record of field `field` that carries `elems` items. */
  datatype Event = Event(field: nat, elems: nat)

  /** The number of scalars in a packed block. */
  function CountItems(f: Field, s: seq<Byte>): nat
    decreases |s|
  {
    if s == [] then 0
    else
      var d := DecScalar(f, s, Undef);
      if d.ok then 1 + CountItems(f, d.rest) else 0
  }

  function Elements(f: Field, wire: nat, payload: seq<Byte>): nat {
    if wire == WT_STRING && Packable(f.ltype) then
      (match Delimited(payload) case NoChunk => 0 case Chunk(body, _) => CountItems(f, body))
    else 1
  }

  function EventOf(fs: seq<Field>, s: seq<Byte>): seq<Event> {
    var t := DecodeTag(s);
    if t.Tag? && FirstMatch(fs, t.number, 0) < |fs| then
      var i := FirstMatch(fs, t.number, 0);
      [Event(i, Elements(fs[i], t.wire, t.rest))]
    else []
  }

  /** The records of known fields, as far as the input is made of whole records.
      They are read off the bytes, whatever a decoder makes of them. */
  function Events(fs: seq<Field>, s: seq<Byte>): seq<Event>
    decreases |s|
  {
    if s == [] then []
    else
      match RecordEnd(fs, s)
      case NoSkip => EventOf(fs, s)
      case Skipped(rest) => EventOf(fs, s) + Events(fs, rest)
  }

  /** The events of a stream whose first record is decoded. */
  lemma EventsStep(sch: Schema, sid: nat, s: seq<Byte>, run: Run)
    requires WfSchema(sch) && sid < |sch| && s != []
    requires var o := Record(sch, sid, s, run); o.ok && !o.stopped
    ensures Events(sch[sid], s) == EventOf(sch[sid], s) + Events(sch[sid], Record(sch, sid, s, run).rest)
  {
    hide Record, EventOf, RecordEnd;
    RecordAdvances(sch, sid, s, run);
  }

  /** A zero key ends the message and is no record. */
  lemma NothingAfterStop(sch: Schema, sid: nat, s: seq<Byte>, run: Run)
    requires WfSchema(sch) && sid < |sch| && s != [] && Record(sch, sid, s, run).stopped
    ensures Events(sch[sid], s) == []
  {
    hide KnownRecord, TerminatorRecord;
  }

  // -------------------------------------------------------- fixed-count arrays

  /** A packed block that is consumed adds all its items. */
  lemma {:induction false} PackedCount(f: Field, s: seq<Byte>, items: seq<Slot>, count: int)
    ensures var p := PackedItems(f, s, items, count);
            p.ok && p.rest == [] ==> p.count == count + CountItems(f, s)
    decreases |s|
  {
    if s == [] || count >= f.arraySize {
    } else {
      var d := DecScalar(f, s, ItemAt(items, count));
      SameScalar(f, s, ItemAt(items, count), Undef);
      if d.ok {
        PackedCount(f, d.rest, SetItem(items, count, d.slot), count + 1);
      }
    }
  }

  lemma ArrayStepCount(sch: Schema, sid: nat, i: nat, wire: nat, s: seq<Byte>, c: Cell, h: Allocator.Heap)
    requires WfSchema(sch) && sid < |sch| && i < |sch[sid]| && FixedCount(sch[sid][i])
    ensures var o := FieldStep(sch, sid, i, wire, s, c, h);
            o.ok ==> o.cell.size == Num(Number(c.size) + Elements(sch[sid][i], wire, s))
  {
    var f := sch[sid][i];
    assert WfMessage(sch, sid) && OkField(sch, sid, i);
    Arrays.RepeatedStep(sch, sid, i, wire, s, c, h);
    if wire == WT_STRING && Packable(f.ltype) && Delimited(s).Chunk? {
      PackedCount(f, Delimited(s).body, Items(c.data), Number(c.size));
    }
  }

  /** What a record does to the shared counter. */
  lemma CounterStep(sch: Schema, sid: nat, i: nat, wire: nat, s: seq<Byte>, run: Run)
    requires WfSchema(sch) && sid < |sch| && i < |sch[sid]| && KnownRecord(sch, sid, i, wire, s, run).ok
    ensures var now := KnownRecord(sch, sid, i, wire, s, run).run;
            if FixedCount(sch[sid][i]) then
              && (run.fixed == i || FixedDone(sch[sid], run)) && now.fixed == i
              && now.fixedSize == (if run.fixed == i then run.fixedSize else 0) + Elements(sch[sid][i], wire, s)
            else now.fixed == run.fixed && now.fixedSize == run.fixedSize
  {
    var fs := sch[sid];
    if FixedCount(fs[i]) {
      var run1 := EnterFixed(run, i).(seen := run.seen + Seen(fs, i));
      ArrayStepCount(sch, sid, i, wire, s, RunCell(fs, run1, i), run1.heap);
    }
  }

  /** The records of fixed-count fields, the rest left out. */
  function FixedEvents(fs: seq<Field>, t: seq<Event>): seq<Event> {
    if t == [] then []
    else if t[0].field < |fs| && FixedCount(fs[t[0].field]) then [t[0]] + FixedEvents(fs, t[1..])
    else FixedEvents(fs, t[1..])
  }

  /** How many of the first records are of field `i`. */
  function Lead(t: seq<Event>, i: nat): (n: nat)
    ensures n <= |t|
  {
    if t == [] || t[0].field != i then 0 else 1 + Lead(t[1..], i)
  }

  function Total(t: seq<Event>): nat {
    if t == [] then 0 else t[0].elems + Total(t[1..])
  }

  function ArraySize(fs: seq<Field>, i: nat): nat {
    if i < |fs| then fs[i].arraySize else 0
  }

  /** Every longest run of records of one field carries exactly as many items as
      the array of that field has. */
  predicate CompleteRuns(fs: seq<Field>, t: seq<Event>)
    decreases |t|
  {
    t == [] ||
    var n := Lead(t, t[0].field);
    Total(t[..n]) == ArraySize(fs, t[0].field) && CompleteRuns(fs, t[n..])
  }

  /** The same with `size` items of field `fixed` already received. */
  predicate CompleteFrom(fs: seq<Field>, fixed: int, size: int, t: seq<Event>) {
    if fixed < 0 then CompleteRuns(fs, t)
    else
      var n := Lead(t, fixed);
      size + Total(t[..n]) == ArraySize(fs, fixed) && CompleteRuns(fs, t[n..])
  }

  /** The next record continues the run or starts another one. */
  lemma CompleteStep(fs: seq<Field>, fixed: int, size: int, e: Event, t: seq<Event>)
    requires -1 <= fixed
    ensures CompleteFrom(fs, fixed, size, [e] + t) <==>
            if e.field == fixed then CompleteFrom(fs, fixed, size + e.elems, t)
            else (fixed >= 0 ==> size == ArraySize(fs, fixed)) && CompleteFrom(fs, e.field, e.elems, t)
  {
    var whole := [e] + t;
    assert whole[1..] == t;
    if e.field == fixed {
      LeadOf(e, t, fixed);
    } else {
      LeadOf(e, t, e.field);
      assert whole[..0] == [] && whole[0..] == whole;
    }
  }

  lemma LeadOf(e: Event, t: seq<Event>, i: nat)
    requires e.field == i
    ensures var n := Lead(t, i);
            && Lead([e] + t, i) == n + 1 && Total(([e] + t)[..n + 1]) == e.elems + Total(t[..n])
            && ([e] + t)[n + 1..] == t[n..]
  {
    var whole, n := [e] + t, Lead(t, i);
    assert whole[1..] == t;
    assert whole[..n + 1][1..] == t[..n];
  }

  predicate FixedInRange(fs: seq<Field>, run: Run) {
    -1 <= run.fixed < |fs|
  }

  lemma EventFirst(fs: seq<Field>, e: Event, t: seq<Event>)
    requires e.field < |fs|
    ensures FixedEvents(fs, [e] + t) == if FixedCount(fs[e.field]) then [e] + FixedEvents(fs, t) else FixedEvents(fs, t)
  {
    assert ([e] + t)[1..] == t;
  }

  /** One record moves the counter as it moves the trace. */
  lemma FixedRecord(sch: Schema, sid: nat, s: seq<Byte>, run: Run, t: seq<Event>)
    requires WfSchema(sch) && sid < |sch| && FixedInRange(sch[sid], run)
    requires var o := Record(sch, sid, s, run); o.ok && !o.stopped
    ensures var o := Record(sch, sid, s, run).run;
            && FixedInRange(sch[sid], o)
            && (CompleteFrom(sch[sid], run.fixed, run.fixedSize, FixedEvents(sch[sid], EventOf(sch[sid], s) + t)) <==>
                CompleteFrom(sch[sid], o.fixed, o.fixedSize, FixedEvents(sch[sid], t)))
  {
    var fs, tag := sch[sid], DecodeTag(s);
    var i := FirstMatch(fs, tag.number, 0);
    if i < |fs| {
      var e := Event(i, Elements(fs[i], tag.wire, tag.rest));
      EventFirst(fs, e, t);
      CounterStep(sch, sid, i, tag.wire, tag.rest, run);
      CompleteStep(fs, run.fixed, run.fixedSize, e, FixedEvents(fs, t));
    } else {
      assert EventOf(sch[sid], s) + t == t;
    }
  }

  lemma {:induction false} FixedRuns(sch: Schema, sid: nat, s: seq<Byte>, run: Run)
    requires WfSchema(sch) && sid < |sch| && Records(sch, sid, s, run).ok && FixedInRange(sch[sid], run)
    ensures FixedDone(sch[sid], Records(sch, sid, s, run).run) <==>
            CompleteFrom(sch[sid], run.fixed, run.fixedSize, FixedEvents(sch[sid], Events(sch[sid], s)))
    decreases |s|
  {
    if s == [] {
    } else {
      var o := Record(sch, sid, s, run);
      if o.stopped {
        NothingAfterStop(sch, sid, s, run);
      } else {
        EventsStep(sch, sid, s, run);
        FixedRecord(sch, sid, s, run, Events(sch[sid], o.rest));
        FixedRuns(sch, sid, o.rest, o.run);
      }
    }
  }

  /** Fixed-count arrays: although all of them share one local counter, the records
      of a message are accepted exactly when every run of records of one such
      field, whatever other fields come between, fills its array. */
  lemma FixedCountExact(sch: Schema, sid: nat, s: seq<Byte>, m: Store, h: Allocator.Heap)
    requires WfSchema(sch) && sid < |sch| && Records(sch, sid, s, Start(m, h)).ok
    ensures FixedDone(sch[sid], Records(sch, sid, s, Start(m, h)).run) <==>
            CompleteRuns(sch[sid], FixedEvents(sch[sid], Events(sch[sid], s)))
    ensures DecodeNoInit(sch, sid, s, m, h).ok ==>
              CompleteRuns(sch[sid], FixedEvents(sch[sid], Events(sch[sid], s)))
  {
    FixedRuns(sch, sid, s, Start(m, h));
  }

  // ---------------------------------------------------------- required fields

  /** The bits of the required fields among the records. */
  function Occurred(fs: seq<Field>, t: seq<Event>): set<nat> {
    if t == [] then {}
    else (if t[0].field < |fs| then Seen(fs, t[0].field) else {}) + Occurred(fs, t[1..])
  }

  lemma SeenRecord(sch: Schema, sid: nat, s: seq<Byte>, run: Run, t: seq<Event>)
    requires WfSchema(sch) && sid < |sch| && sch[sid] != []
    requires var o := Record(sch, sid, s, run); o.ok && !o.stopped
    ensures run.seen + Occurred(sch[sid], EventOf(sch[sid], s) + t) ==
            Record(sch, sid, s, run).run.seen + Occurred(sch[sid], t)
  {
    var fs, tag := sch[sid], DecodeTag(s);
    var i := FirstMatch(fs, tag.number, 0);
    if i < |fs| {
      var e := Event(i, Elements(fs[i], tag.wire, tag.rest));
      assert ([e] + t)[1..] == t;
      assert (run.seen + Seen(fs, i)) + Occurred(fs, t) == run.seen + (Seen(fs, i) + Occurred(fs, t));
    } else {
      assert EventOf(sch[sid], s) + t == t;
    }
  }

  lemma {:induction false} SeenIsOccurred(sch: Schema, sid: nat, s: seq<Byte>, run: Run)
    requires WfSchema(sch) && sid < |sch| && sch[sid] != [] && Records(sch, sid, s, run).ok
    ensures Records(sch, sid, s, run).run.seen == run.seen + Occurred(sch[sid], Events(sch[sid], s))
    decreases |s|
  {
    if s == [] {
    } else {
      var o := Record(sch, sid, s, run);
      if o.stopped {
        NothingAfterStop(sch, sid, s, run);
      } else {
        EventsStep(sch, sid, s, run);
        SeenRecord(sch, sid, s, run, Events(sch[sid], o.rest));
        SeenIsOccurred(sch, sid, o.rest, o.run);
      }
    }
  }

  lemma {:induction false} OccurredExactly(fs: seq<Field>, t: seq<Event>, x: nat)
    ensures x in Occurred(fs, t) <==>
              exists k {:trigger t[k]} :: 0 <= k < |t| && t[k].field < |fs| && x in Seen(fs, t[k].field)
  {
    if t == [] {
    } else {
      OccurredExactly(fs, t[1..], x);
      if exists k {:trigger t[1..][k]} ::
           0 <= k < |t[1..]| && t[1..][k].field < |fs| && x in Seen(fs, t[1..][k].field) {
        var k :| 0 <= k < |t[1..]| && t[1..][k].field < |fs| && x in Seen(fs, t[1..][k].field);
        assert t[k + 1] == t[1..][k];
      }
      if exists k {:trigger t[k]} :: 0 <= k < |t| && t[k].field < |fs| && x in Seen(fs, t[k].field) {
        var k :| 0 <= k < |t| && t[k].field < |fs| && x in Seen(fs, t[k].field);
        assert k > 0 ==> t[1..][k - 1] == t[k];
      }
    }
  }

  /** Field `i` has a record in the stream. */
  predicate Occurs(t: seq<Event>, i: nat) {
    exists k {:trigger t[k]} :: 0 <= k < |t| && t[k].field == i
  }

  lemma BitsGrow(fs: seq<Field>, i: nat, j: nat)
    requires i < j < |fs| && fs[i].htype.Required?
    ensures RequiredBefore(fs, i) < RequiredBefore(fs, j)
  {
    RequiredFields.RequiredMonotone(fs, i + 1, j);
  }

  /** Required fields have different bits. */
  lemma BitIsField(fs: seq<Field>, i: nat, j: nat)
    requires i < |fs| && j < |fs| && fs[i].htype.Required? && fs[j].htype.Required?
    requires RequiredBefore(fs, i) == RequiredBefore(fs, j)
    ensures i == j
  {
    if i != j {
      BitsGrow(fs, if i < j then i else j, if i < j then j else i);
    }
  }

  lemma {:induction false} FieldOfBit(fs: seq<Field>, n: nat, k: nat) returns (i: nat)
    requires n <= |fs| && k < RequiredBefore(fs, n)
    ensures i < n && fs[i].htype.Required? && RequiredBefore(fs, i) == k
  {
    if k < RequiredBefore(fs, n - 1) {
      i := FieldOfBit(fs, n - 1, k);
    } else {
      i := n - 1;
    }
  }

  /** A required field the bitmap tracks has a record in the stream. */
  predicate Supplied(fs: seq<Field>, t: seq<Event>, i: nat)
    requires i < |fs|
  {
    fs[i].htype.Required? && RequiredBefore(fs, i) < MAX_REQUIRED_FIELDS ==> Occurs(t, i)
  }

  lemma BitOccurs(fs: seq<Field>, t: seq<Event>, i: nat)
    requires i < |fs| && fs[i].htype.Required? && RequiredBefore(fs, i) < MAX_REQUIRED_FIELDS
    ensures RequiredBefore(fs, i) in Occurred(fs, t) <==> Occurs(t, i)
  {
    var x := RequiredBefore(fs, i);
    OccurredExactly(fs, t, x);
    if exists k {:trigger t[k]} :: 0 <= k < |t| && t[k].field < |fs| && x in Seen(fs, t[k].field) {
      var k :| 0 <= k < |t| && t[k].field < |fs| && x in Seen(fs, t[k].field);
      BitIsField(fs, t[k].field, i);
    }
  }

  lemma AllSupplied(fs: seq<Field>, t: seq<Event>)
    ensures RequiredSeen(fs, Occurred(fs, t)) <==>
              forall i {:trigger Supplied(fs, t, i)} :: 0 <= i < |fs| ==> Supplied(fs, t, i)
  {
    if RequiredSeen(fs, Occurred(fs, t)) {
      forall i | 0 <= i < |fs| ensures Supplied(fs, t, i) {
        if fs[i].htype.Required? && RequiredBefore(fs, i) < MAX_REQUIRED_FIELDS {
          RequiredFields.RequiredMonotone(fs, i + 1, |fs|);
          BitOccurs(fs, t, i);
        }
      }
    }
    if forall i {:trigger Supplied(fs, t, i)} :: 0 <= i < |fs| ==> Supplied(fs, t, i) {
      forall k | 0 <= k < RequiredBefore(fs, |fs|) && k < MAX_REQUIRED_FIELDS ensures k in Occurred(fs, t) {
        var i := FieldOfBit(fs, |fs|, k);
        assert Supplied(fs, t, i);
        BitOccurs(fs, t, i);
      }
    }
  }

  /** The required-field check: records that are all decoded pass it exactly when
      each of the first 64 required fields has one among them. */
  lemma RequiredExact(sch: Schema, sid: nat, s: seq<Byte>, m: Store, h: Allocator.Heap)
    requires WfSchema(sch) && sid < |sch| && Records(sch, sid, s, Start(m, h)).ok
    ensures RequiredSeen(sch[sid], Records(sch, sid, s, Start(m, h)).run.seen) <==>
            forall i {:trigger Supplied(sch[sid], Events(sch[sid], s), i)} ::
              0 <= i < |sch[sid]| ==> Supplied(sch[sid], Events(sch[sid], s), i)
  {
    var t := Events(sch[sid], s);
    if sch[sid] != [] {
      SeenIsOccurred(sch, sid, s, Start(m, h));
      assert {} + Occurred(sch[sid], t) == Occurred(sch[sid], t);
      AllSupplied(sch[sid], t);
    }
  }
}
