/** The encoder sends every array in one run and every struct in one record, so that
    decoding its output loses no block: the decoded struct owns exactly the new ones. */
module EncodedOnce {
  import opened Bits
  import opened Varint
  import opened Descriptor
  import opened FieldIterator
  import opened Scalars
  import Defaults
  import opened Allocator
  import opened Release
  import opened EncodeSpec
  import D = DecodeSpec
  import opened Structs
  import opened Received
  import opened Arrays
  import opened Delimiting
  import opened Trace
  import opened Ownership
  import opened DefaultOwnership
  import opened Losses
  import opened DecodeOwnership
  import opened Restarts
  import opened Merge
  import RoundTrip

  /** The records come in table order, from field `n` on, one for each field that is
      not repeated. */
  predicate InTableOrder(fs: seq<Field>, n: nat, t: seq<Event>)
    decreases |t|
  {
    t == [] ||
    var i := t[0].field;
    n <= i < |fs| && InTableOrder(fs, if fs[i].htype.Repeated? then i else i + 1, t[1..])
  }

  lemma {:induction false} NoEarlier(fs: seq<Field>, n: nat, t: seq<Event>, i: nat)
    requires InTableOrder(fs, n, t) && i < n
    ensures !Occurs(t, i)
    decreases |t|
  {
    if t == [] {
    } else {
      assert t == [t[0]] + t[1..];
      OccursLater(t[0], t[1..], i);
      NoEarlier(fs, if fs[t[0].field].htype.Repeated? then t[0].field else t[0].field + 1, t[1..], i);
    }
  }

  /** Records in table order fill no array twice. */
  lemma {:induction false} OrderIsSingle(sch: Schema, sid: nat, last: int, n: nat, t: seq<Event>)
    requires WfSchema(sch) && sid < |sch| && last <= n && InTableOrder(sch[sid], n, t)
    ensures SingleRuns(sch, sid, last, t)
    decreases |t|
  {
    hide Refills, Occurs;
    if t == [] {
    } else {
      var fs, i := sch[sid], t[0].field;
      var next := if fs[i].htype.Repeated? then i else i + 1;
      if D.FixedCount(fs[i]) {
        if 0 <= last && last != i {
          assert InTableOrder(fs, i, t);
          NoEarlier(fs, i, t, last);
        }
        OrderIsSingle(sch, sid, i, next, t[1..]);
      } else {
        if Refills(sch, sid, i) {
          RefillsOnce(sch, sid, i);
          NoEarlier(fs, next, t[1..], i);
        }
        OrderIsSingle(sch, sid, last, next, t[1..]);
      }
    }
  }

  lemma RefillsOnce(sch: Schema, sid: nat, i: nat)
    requires WfSchema(sch) && sid < |sch| && i < |sch[sid]| && Refills(sch, sid, i) && !D.FixedCount(sch[sid][i])
    ensures !sch[sid][i].htype.Repeated?
  {
  }

  // --------------------------------------------------------------- one record

  /** These bytes are sent in table order, from field `n` on, and each payload likewise. */
  predicate Tail(sch: Schema, sid: nat, n: nat, t: seq<Byte>)
    requires WfSchema(sch) && sid < |sch|
  {
    InTableOrder(sch[sid], n, Events(sch[sid], t)) && PayloadsOnce(sch, sid, t)
  }

  lemma Sooner(sch: Schema, sid: nat, n: nat, m: nat, t: seq<Byte>)
    requires WfSchema(sch) && sid < |sch| && m <= n && Tail(sch, sid, n, t)
    ensures Tail(sch, sid, m, t)
  {
  }

  /** `p` is the payload of a record of field `f`, whatever follows. */
  predicate Payload(sch: Schema, f: Field, wire: nat, p: seq<Byte>, t: seq<Byte>)
    requires WfSchema(sch) && KnownRef(sch, f)
  {
    PayloadEnd(f, wire, p + t) == D.Skipped(t) && PayloadOnce(sch, f, p + t)
  }

  lemma OneRecord(sch: Schema, sid: nat, i: nat, wire: nat, p: seq<Byte>, t: seq<Byte>)
    requires WfSchema(sch) && sid < |sch| && i < |sch[sid]| && wire < 8 && KnownRef(sch, sch[sid][i])
    requires Payload(sch, sch[sid][i], wire, p, t)
    requires Tail(sch, sid, if sch[sid][i].htype.Repeated? then i else i + 1, t)
    ensures Tail(sch, sid, i, EncKey(wire, sch[sid][i].tag) + p + t)
  {
    hide D.DecodeTag, PayloadEnd, PayloadOnce, Elements, EncKey;
    var f := sch[sid][i];
    var s := EncKey(wire, f.tag) + p + t;
    assert WfMessage(sch, sid) && OkField(sch, sid, i);
    assert s == EncKey(wire, f.tag) + (p + t);
    KeyRoundTrip(wire, f.tag, p + t);
    MatchIsUnique(sch[sid], f.tag, i);
    KeyNotEmpty(wire, f.tag, p + t);
    assert RecordEnd(sch[sid], s) == D.Skipped(t);
    var e := Event(i, Elements(f, wire, p + t));
    assert EventOf(sch[sid], s) == [e];
    assert Events(sch[sid], s) == [e] + Events(sch[sid], t);
    assert ([e] + Events(sch[sid], t))[1..] == Events(sch[sid], t);
    assert RecordOnce(sch, sid, s);
  }

  lemma KeyNotEmpty(wire: nat, tag: nat, t: seq<Byte>)
    ensures EncKey(wire, tag) + t != []
  {
    EncVarintShape(8 * tag + wire);
    AppendNonEmpty(EncKey(wire, tag), t);
  }

  lemma WireFits(l: LType)
    ensures WireType(l) < 8
  {
  }

  lemma StringPayload(sch: Schema, f: Field, wire: nat, b: seq<Byte>, t: seq<Byte>)
    requires WfSchema(sch) && KnownRef(sch, f) && ReadsLength(f, wire) && |b| < TWO32
    requires f.ltype.SubMessage? && f.ptr.Fields? ==> SentOnce(sch, f.ptr.id, b)
    ensures Payload(sch, f, wire, EncString(b), t)
  {
    hide SentOnce, EncString, D.Delimited;
    ChunkRoundTrip(b, t);
  }

  lemma {:induction false} ItemOnce(sch: Schema, sid: nat, i: nat, x: Slot, t: seq<Byte>)
    requires WfSchema(sch) && sid < |sch| && i < |sch[sid]| && ValidItem(sch, sid, i, x)
    ensures KnownRef(sch, sch[sid][i]) && EncValue(sch, sch[sid][i], x).ok
    ensures Payload(sch, sch[sid][i], WireType(sch[sid][i].ltype), EncValue(sch, sch[sid][i], x).out, t)
    decreases x, 6
  {
    var f := sch[sid][i];
    assert WfMessage(sch, sid) && OkField(sch, sid, i);
    hide Payload, EncString, SentOnce, ValidStruct;
    if f.ltype.SubMessage? {
      MessageOnce(sch, f.ptr.id, x);
      StringPayload(sch, f, WT_STRING, EncMessage(sch, f.ptr.id, x).out, t);
    } else if Packable(f.ltype) {
      ScalarPayload(sch, sid, i, x, t);
    } else {
      var b := if f.ltype.String? then UpToNul(x.bytes, if f.atype.Pointer? then SIZE_MAX else f.dataSize) else x.bytes;
      assert EncValue(sch, f, x) == Emit(true, EncString(b));
      StringPayload(sch, f, WT_STRING, b, t);
    }
  }

  lemma ScalarPayload(sch: Schema, sid: nat, i: nat, x: Slot, t: seq<Byte>)
    requires WfSchema(sch) && sid < |sch| && i < |sch[sid]| && ValidItem(sch, sid, i, x) && Packable(sch[sid][i].ltype)
    ensures KnownRef(sch, sch[sid][i]) && EncValue(sch, sch[sid][i], x).ok
    ensures Payload(sch, sch[sid][i], WireType(sch[sid][i].ltype), EncValue(sch, sch[sid][i], x).out, t)
  {
    hide EncScalar, DecScalar;
    assert WfMessage(sch, sid) && OkField(sch, sid, i);
    ScalarRoundTrip(sch[sid][i], x.n, t, Undef);
  }

  lemma {:induction false} TaggedOnce(sch: Schema, sid: nat, i: nat, x: Slot, t: seq<Byte>)
    requires WfSchema(sch) && sid < |sch| && i < |sch[sid]| && ValidItem(sch, sid, i, x)
    requires Tail(sch, sid, if sch[sid][i].htype.Repeated? then i else i + 1, t)
    ensures KnownRef(sch, sch[sid][i]) && Tail(sch, sid, i, EncTagged(sch, sch[sid][i], x).out + t)
    decreases x, 7
  {
    hide Payload, Tail, EncValue, ValidItem, EncKey;
    var f := sch[sid][i];
    ItemOnce(sch, sid, i, x, t);
    WireFits(f.ltype);
    OneRecord(sch, sid, i, WireType(f.ltype), EncValue(sch, f, x).out, t);
  }

  lemma {:induction false} TargetOnce(sch: Schema, sid: nat, i: nat, x: Slot, t: seq<Byte>)
    requires WfSchema(sch) && sid < |sch| && i < |sch[sid]|
    requires ValidTarget(sch, sid, i, x) || (OwnBuffer(sch[sid][i]) && x.Nil?)
    requires Tail(sch, sid, if sch[sid][i].htype.Repeated? then i else i + 1, t)
    ensures KnownRef(sch, sch[sid][i]) && Tail(sch, sid, i, EncTarget(sch, sch[sid][i], x).out + t)
    decreases x, 8
  {
    hide Payload, Tail, EncTagged, EncKey;
    var f := sch[sid][i];
    assert WfMessage(sch, sid) && OkField(sch, sid, i);
    if x.Nil? {
      U32Small(0);
      assert EncString([]) == [0];
      StringPayload(sch, f, WT_STRING, [], t);
      OneRecord(sch, sid, i, WT_STRING, [0], t);
    } else {
      TaggedOnce(sch, sid, i, x.cells[0], t);
    }
  }

  // --------------------------------------------------------------- one field

  lemma {:induction false} EntriesOnce(sch: Schema, sid: nat, i: nat, xs: seq<Slot>, n: nat, t: seq<Byte>)
    requires WfSchema(sch) && sid < |sch| && i < |sch[sid]| && sch[sid][i].htype.Repeated? && n <= |xs|
    requires forall k :: 0 <= k < n ==> ValidEntry(sch, sid, i, xs[k])
    requires Tail(sch, sid, i, t)
    ensures KnownRef(sch, sch[sid][i]) && EncEntries(sch, sch[sid][i], xs, n).ok
    ensures Tail(sch, sid, i, EncEntries(sch, sch[sid][i], xs, n).out + t)
    decreases xs, 9, n
  {
    hide Tail, EncTagged, EncTarget, ValidItem, ValidTarget;
    var f := sch[sid][i];
    assert WfMessage(sch, sid) && OkField(sch, sid, i);
    if n == 0 {
      assert [] + t == t;
    } else {
      var x := xs[n - 1];
      var e := if OwnBuffer(f) then EncTarget(sch, f, x) else EncTagged(sch, f, x);
      assert ValidEntry(sch, sid, i, x);
      if OwnBuffer(f) {
        TargetOnce(sch, sid, i, x, t);
      } else {
        TaggedOnce(sch, sid, i, x, t);
      }
      EntryEmits(sch, sid, i, x);
      EntriesOnce(sch, sid, i, xs, n - 1, e.out + t);
      var head := EncEntries(sch, f, xs, n - 1).out;
      assert EncEntries(sch, f, xs, n).out == head + e.out;
      assert head + (e.out + t) == head + e.out + t;
    }
  }

  lemma {:induction false} EntryEmits(sch: Schema, sid: nat, i: nat, x: Slot)
    requires WfSchema(sch) && sid < |sch| && i < |sch[sid]| && ValidEntry(sch, sid, i, x)
    ensures KnownRef(sch, sch[sid][i])
    ensures OwnBuffer(sch[sid][i]) ==> EncTarget(sch, sch[sid][i], x).ok
    ensures !OwnBuffer(sch[sid][i]) ==> EncTagged(sch, sch[sid][i], x).ok
    decreases x, 8
  {
    hide Payload, EncValue, ValidItem;
    assert WfMessage(sch, sid) && OkField(sch, sid, i);
    if OwnBuffer(sch[sid][i]) {
      if x.Block? {
        ItemOnce(sch, sid, i, x.cells[0], []);
      }
    } else {
      ItemOnce(sch, sid, i, x, []);
    }
  }

  lemma PackedOnce(sch: Schema, sid: nat, i: nat, xs: seq<Slot>, n: nat, t: seq<Byte>)
    requires WfSchema(sch) && sid < |sch| && i < |sch[sid]| && sch[sid][i].htype.Repeated?
    requires Packable(sch[sid][i].ltype)
    requires EncScalars(sch[sid][i], xs, n).ok && |EncScalars(sch[sid][i], xs, n).out| < TWO32 && Tail(sch, sid, i, t)
    ensures Tail(sch, sid, i, EncPacked(sch[sid][i], xs, n).out + t)
  {
    hide Tail, EncScalars, EncString, EncKey, Payload;
    var f := sch[sid][i];
    assert WfMessage(sch, sid) && OkField(sch, sid, i);
    var b := EncScalars(f, xs, n).out;
    StringPayload(sch, f, WT_STRING, b, t);
    OneRecord(sch, sid, i, WT_STRING, EncString(b), t);
  }

  lemma {:induction false} ArrayOnce(sch: Schema, sid: nat, i: nat, xs: seq<Slot>, n: nat, t: seq<Byte>)
    requires WfSchema(sch) && sid < |sch| && i < |sch[sid]| && sch[sid][i].htype.Repeated?
    requires ValidItems(sch, sid, i, xs, n) && Tail(sch, sid, i, t)
    ensures KnownRef(sch, sch[sid][i]) && Tail(sch, sid, i, EncArray(sch, sch[sid][i], xs, n).out + t)
    decreases xs, 10
  {
    hide Tail, EncScalars, EncEntries, EncPacked;
    var f := sch[sid][i];
    assert WfMessage(sch, sid) && OkField(sch, sid, i);
    assert [] + t == t;
    if n == 0 {
    } else if Packable(f.ltype) {
      RoundTrip.ScalarEntries(sch, sid, i, xs, n);
      RoundTrip.ScalarsAreNums(f, xs, n);
      PackedOnce(sch, sid, i, xs, n, t);
    } else {
      EntriesOnce(sch, sid, i, xs, n, t);
    }
  }

  lemma {:induction false} FieldOnce(sch: Schema, sid: nat, i: nat, a: Cell, t: seq<Byte>)
    requires WfSchema(sch) && sid < |sch| && i < |sch[sid]| && ValidCell(sch, sid, i, a) && Tail(sch, sid, i + 1, t)
    ensures KnownRef(sch, sch[sid][i]) && Tail(sch, sid, i, EncField(sch, sch[sid][i], a.data, a.size).out + t)
    decreases a.data, 11
  {
    hide Tail, EncArray, EncTagged, EncTarget, ValidItem, ValidTarget, ValidItems, IsDefault;
    var f := sch[sid][i];
    assert WfMessage(sch, sid) && OkField(sch, sid, i);
    Sooner(sch, sid, i + 1, i, t);
    assert [] + t == t;
    if f.htype.Repeated? {
      if a.data.Arr? {
        ArrayOnce(sch, sid, i, a.data.items, ArrayCount(f, a.size), t);
      } else if a.data.Block? {
        ArrayOnce(sch, sid, i, a.data.cells, ArrayCount(f, a.size), t);
      }
    } else if Present(sch, f, a.data, a.size) {
      if f.atype.Static? {
        TaggedOnce(sch, sid, i, a.data, t);
      } else {
        TargetOnce(sch, sid, i, a.data, t);
      }
    }
  }

  lemma {:induction false} FieldsOnce(sch: Schema, sid: nat, x: Slot, n: nat, t: seq<Byte>)
    requires WfSchema(sch) && sid < |sch| && n <= |sch[sid]| && ValidStruct(sch, sid, x) && Tail(sch, sid, n, t)
    requires EncFields(sch, sid, x, n).ok
    ensures Tail(sch, sid, 0, EncFields(sch, sid, x, n).out + t)
    decreases x, 2, n
  {
    hide Tail, EncField, ValidCell;
    if n == 0 {
      assert [] + t == t;
    } else {
      var i := n - 1;
      assert WfMessage(sch, sid) && OkField(sch, sid, i) && ValidField(sch, sid, x, i);
      var a := CellOf(sch[sid], x.members, i);
      FieldOnce(sch, sid, i, a, t);
      var e := EncField(sch, sch[sid][i], a.data, a.size);
      FieldsOnce(sch, sid, x, i, e.out + t);
      var head := EncFields(sch, sid, x, i).out;
      assert EncFields(sch, sid, x, n).out == head + e.out;
      assert head + (e.out + t) == head + e.out + t;
    }
  }

  /** The output of the encoder is sent once, submessages included. */
  lemma {:induction false} MessageOnce(sch: Schema, sid: nat, x: Slot)
    requires WfSchema(sch) && sid < |sch| && ValidStruct(sch, sid, x)
    ensures EncMessage(sch, sid, x).ok && SentOnce(sch, sid, EncMessage(sch, sid, x).out)
    decreases x, 3
  {
    hide EncFields, ValidStruct;
    MessageEmits(sch, sid, x);
    FieldsOnce(sch, sid, x, |sch[sid]|, []);
    var b := EncMessage(sch, sid, x).out;
    assert b + [] == b;
    OrderIsSingle(sch, sid, -1, 0, Events(sch[sid], b));
  }

  lemma MessageEmits(sch: Schema, sid: nat, x: Slot)
    requires WfSchema(sch) && sid < |sch| && ValidStruct(sch, sid, x)
    ensures EncMessage(sch, sid, x).ok
  {
    ZeroShaped(sch, sid);
    RoundTrip.EncodeDecode(sch, sid, x, Defaults.ZeroStruct(sch, sid, |sch[sid]|),
                           Heap({}, 0, (id, bytes) => true, false, map[]));
  }

  /** Decoding what the encoder sent, into a struct whose array entries own nothing: the
      decoded struct owns exactly the blocks that were allocated for it. */
  lemma EncodeDecodeOwn(sch: Schema, sid: nat, x: Slot, into: Store, h: Heap, rest: multiset<nat>)
    requires WfSchema(sch) && sid < |sch| && Generous(h) && ValidStruct(sch, sid, x) && Shaped(sch, sid, into)
    requires LaidOut(sch, sid, into) && Lasting(sch, sid, into) == multiset{} && Balanced(h, rest)
    ensures var o := D.Decode(sch, sid, EncMessage(sch, sid, x).out, into, h);
            && o.ok && ReceivedStruct(sch, sid, x, Sub(o.store))
            && Owned(sch, sid, o.store, o.heap, rest) && Tidy(sch, sid, Sub(o.store))
  {
    hide D.Decode, EncFields, ReceivedStruct, SameStruct, KeptStruct, SentOnce, LostDecode, LastingFields, Balanced;
    var b := EncMessage(sch, sid, x).out;
    RoundTrip.EncodeDecode(sch, sid, x, into, h);
    MessageOnce(sch, sid, x);
    AddNothing(rest);
    DecodeOwn(sch, sid, b, into, h, rest);
    DecodeKeeps(sch, sid, b, into, h, rest);
  }
}
