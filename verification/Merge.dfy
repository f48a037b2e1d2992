/** What the loop of pb_decode_noinit does with a stream put together from parts:
    concatenation merges, unknown records are invisible, neighbouring records of
    different fields may be swapped. */
module Merge {
  import opened Bits
  import opened Varint
  import opened Descriptor
  import opened FieldIterator
  import opened Allocator
  import opened DecodeSpec
  import opened Locality

  /** `s` is decoded to its last byte, without a zero key. */
  ghost predicate ToTheEnd(o: RunOut) {
    o.ok && !o.stopped && o.rest == []
  }

  /** Decoding stops short only at an error or at a zero key. */
  lemma {:induction false} EndsAtTheEnd(sch: Schema, sid: nat, s: seq<Byte>, run: Run)
    requires WfSchema(sch) && sid < |sch|
    ensures Records(sch, sid, s, run).ok && !Records(sch, sid, s, run).stopped ==> Records(sch, sid, s, run).rest == []
    decreases |s|
  {
    if s == [] {
    } else {
      var o := Record(sch, sid, s, run);
      if o.ok && !o.stopped {
        EndsAtTheEnd(sch, sid, o.rest, o.run);
      }
    }
  }

  lemma AppendNonEmpty(s: seq<Byte>, t: seq<Byte>)
    requires s != []
    ensures s + t != []
  {
    assert |s + t| == |s| + |t|;
  }

  /** A decoded prefix hands its run over to the rest; after a zero key the rest
      is not looked at. */
  lemma {:induction false} RecordsConcat(sch: Schema, sid: nat, s: seq<Byte>, t: seq<Byte>, run: Run)
    requires WfSchema(sch) && sid < |sch|
    requires Records(sch, sid, s, run).ok
    ensures !Records(sch, sid, s, run).stopped ==>
              Records(sch, sid, s + t, run) == Records(sch, sid, t, Records(sch, sid, s, run).run)
    ensures Records(sch, sid, s, run).stopped ==>
              Records(sch, sid, s + t, run) ==
              Records(sch, sid, s, run).(rest := Records(sch, sid, s, run).rest + t)
    decreases |s|
  {
    if s == [] {
      assert s + t == t;
    } else {
      AppendNonEmpty(s, t);
      RecordLocal(sch, sid, s, t, run);
      var o := Record(sch, sid, s, run);
      if !o.stopped {
        RecordsConcat(sch, sid, o.rest, t, o.run);
      }
    }
  }

  // ------------------------------------------------------ what runs remember

  /** The same run, with more required fields seen. */
  function Also(run: Run, a: set<nat>): Run {
    run.(seen := a + run.seen)
  }

  lemma KnownAlso(sch: Schema, sid: nat, i: nat, wire: nat, s: seq<Byte>, run: Run, a: set<nat>)
    requires WfSchema(sch) && sid < |sch| && i < |sch[sid]|
    ensures var o := KnownRecord(sch, sid, i, wire, s, run);
            KnownRecord(sch, sid, i, wire, s, Also(run, a)) == o.(run := Also(o.run, a))
  {
    assert a + (run.seen + Seen(sch[sid], i)) == (a + run.seen) + Seen(sch[sid], i);
  }

  lemma RecordAlso(sch: Schema, sid: nat, s: seq<Byte>, run: Run, a: set<nat>)
    requires WfSchema(sch) && sid < |sch|
    ensures var o := Record(sch, sid, s, run);
            Record(sch, sid, s, Also(run, a)) == o.(run := Also(o.run, a))
  {
    match DecodeTag(s)
    case Tag(number, wire, rest) =>
      if Known(sch[sid], number) {
        if sch[sid] == [] {
          assert a + (run.seen + {0}) == (a + run.seen) + {0};
        } else {
          KnownAlso(sch, sid, FirstMatch(sch[sid], number, 0), wire, rest, run, a);
        }
      }
    case _ =>
  }

  /** What was seen before has no influence on a run. */
  lemma {:induction false} RecordsAlso(sch: Schema, sid: nat, s: seq<Byte>, run: Run, a: set<nat>)
    requires WfSchema(sch) && sid < |sch|
    ensures var o := Records(sch, sid, s, run);
            Records(sch, sid, s, Also(run, a)) == o.(run := Also(o.run, a))
    decreases |s|
  {
    if s == [] {
    } else {
      RecordAlso(sch, sid, s, run, a);
      var o := Record(sch, sid, s, run);
      if o.ok && !o.stopped {
        RecordsAlso(sch, sid, o.rest, o.run, a);
      }
    }
  }

  // -------------------------------------------------------- concatenation

  /** If `b1` ends in a zero key, nothing of `b2` is decoded, not even badly formed
      bytes. */
  lemma ZeroKeyHidesTheRest(sch: Schema, sid: nat, b1: seq<Byte>, b2: seq<Byte>, m: Store, h: Heap)
    requires WfSchema(sch) && sid < |sch|
    requires DecodeNoInit(sch, sid, b1, m, h).ok && Records(sch, sid, b1, Start(m, h)).stopped
    ensures var first := DecodeNoInit(sch, sid, b1, m, h);
            DecodeNoInit(sch, sid, b1 + b2, m, h) == first.(rest := first.rest + b2)
  {
    RecordsConcat(sch, sid, b1, b2, Start(m, h));
  }

  /** Such a `b1` exists: one zero byte decodes to its end in any message without
      required fields. */
  lemma ZeroByteStops(sch: Schema, sid: nat, run: Run)
    requires WfSchema(sch) && sid < |sch|
    ensures Records(sch, sid, [0], run) == RunOut(true, true, [], run)
  {
    RoundTrip32(0, []);
    assert EncVarint(0) + [] == [0];
  }

  // ------------------------------------------------------- unknown records

  /** One record: key, payload, and nothing else. */
  predicate UnknownRecord(fs: seq<Field>, rec: seq<Byte>) {
    var t := DecodeTag(rec);
    t.Tag? && !Known(fs, t.number) && SkipField(t.wire, t.rest) == Skipped([])
  }

  /** A skippable record of an unknown field, put at any field boundary, changes
      neither success nor any byte of what is left in memory. */
  lemma UnknownIsInvisible(sch: Schema, sid: nat, before: seq<Byte>, rec: seq<Byte>, after: seq<Byte>, run: Run)
    requires WfSchema(sch) && sid < |sch|
    requires ToTheEnd(Records(sch, sid, before, run)) && UnknownRecord(sch[sid], rec)
    ensures Records(sch, sid, before + (rec + after), run) == Records(sch, sid, before + after, run)
  {
    RecordsConcat(sch, sid, before, rec + after, run);
    RecordsConcat(sch, sid, before, after, run);
    SkipOver(sch, sid, rec, after, Records(sch, sid, before, run).run);
  }

  lemma SkipOver(sch: Schema, sid: nat, rec: seq<Byte>, after: seq<Byte>, run: Run)
    requires WfSchema(sch) && sid < |sch| && UnknownRecord(sch[sid], rec)
    ensures Records(sch, sid, rec + after, run) == Records(sch, sid, after, run)
  {
    assert Record(sch, sid, rec, run) == RunOut(true, false, [], run);
    RecordLocal(sch, sid, rec, after, run);
    assert rec != [];
    AppendNonEmpty(rec, after);
    assert [] + after == after;
  }

  lemma UnknownInMessage(sch: Schema, sid: nat, before: seq<Byte>, rec: seq<Byte>, after: seq<Byte>, m: Store, h: Heap)
    requires WfSchema(sch) && sid < |sch| && UnknownRecord(sch[sid], rec)
    requires ToTheEnd(Records(sch, sid, before, Start(Defaults.Initialised(sch, sid, m), h)))
    ensures Decode(sch, sid, before + (rec + after), m, h) == Decode(sch, sid, before + after, m, h)
  {
    UnknownIsInvisible(sch, sid, before, rec, after, Start(Defaults.Initialised(sch, sid, m), h));
  }

  /** In an empty message a record with tag 0 is not skipped: its payload is read
      as a bool, so this 64-bit record is an error there. */
  lemma ZeroTagInEmptyMessage(sch: Schema, sid: nat, run: Run)
    requires WfSchema(sch) && sid < |sch| && sch[sid] == []
    ensures var rec := [1, 0xFF, 0xFF, 0xFF, 0xFF, 0xFF, 0xFF, 0xFF, 0xFF];
            && DecodeTag(rec).Tag? && SkipField(DecodeTag(rec).wire, DecodeTag(rec).rest) == Skipped([])
            && !Record(sch, sid, rec, run).ok
  {
    hide Varint32, KnownRecord;
    var payload := [0xFF, 0xFF, 0xFF, 0xFF, 0xFF, 0xFF, 0xFF, 0xFF];
    assert [1] + payload == [1, 0xFF, 0xFF, 0xFF, 0xFF, 0xFF, 0xFF, 0xFF, 0xFF];
    OneByteKey(payload);
    Unterminated(payload);
  }

  lemma OneByteKey(t: seq<Byte>)
    ensures Varint32([1] + t) == Got(1, t)
  {
    RoundTrip32(1, t);
    assert EncVarint(1) == [1];
  }

  /** Bytes that all go on are no varint. */
  lemma Unterminated(s: seq<Byte>)
    requires forall k :: 0 <= k < |s| ==> s[k] >= 128
    ensures Varint32(s).Fail?
  {
    VarLenMeaning(s);
  }
}
