/** pb_istream_t on a memory buffer: a cursor with a limit, and the readers of
    keys, varints and length-delimited chunks as the loops they are. */
module InputStream {
  import opened Bits
  import opened Varint
  import opened Descriptor
  import DecodeSpec

  /** The first `k` bytes of `s` all have the continuation bit. */
  ghost predicate Continues(s: seq<Byte>, k: nat) {
    k <= |s| && (forall i :: 0 <= i < k ==> s[i] >= 128)
  }

  lemma VarintGoesOn(s: seq<Byte>, k: nat)
    requires Continues(s, k)
    ensures VarLen(s) > 0 ==> VarLen(s) > k
    ensures k == |s| ==> VarLen(s) == 0
    ensures k < |s| && s[k] < 128 ==> VarLen(s) == k + 1
    ensures k < |s| && s[k] >= 128 && VarLen(s) > 0 ==> VarLen(s) > k + 1
  {
    VarLenMeaning(s);
  }

  lemma Loop32At(s: seq<Byte>, k: nat, n: nat, bitpos: nat, result: nat)
    requires k < n <= |s|
    ensures var w := Accumulate32(result, bitpos, s[k]);
            var next := (bitpos + 7) % 256;
            Loop32(s[k..n], bitpos, result) ==
            if w.Overflow? then Overflow
            else if n == k + 1 then (if next == 35 && Low(s[k]) >= 16 then Overflow else w)
            else Loop32(s[k + 1..n], next, w.bits)
  {
    assert s[k..n][1..] == s[k + 1..n];
  }

  /** The value of the first `k` bytes, in a 64-bit word. */
  ghost function Head64(s: seq<Byte>, k: nat): nat {
    if k <= |s| then U64(Groups(s[..k])) else 0
  }

  lemma NoGroups(s: seq<Byte>)
    ensures Head64(s, 0) == 0
  {
    assert s[..0] == [];
  }

  lemma Accumulate64At(s: seq<Byte>, k: nat)
    requires k < |s| && k <= 9
    ensures BitOr(Head64(s, k), Shl64(Low(s[k]), 7 * k)) == Head64(s, k + 1)
  {
    assert s[..k + 1] == s[..k] + [s[k]];
    Accumulate64(s[..k], s[k]);
  }

  lemma Varint64Is(s: seq<Byte>)
    ensures var n := VarLen(s); Varint64(s) == if n == 0 || n > 10 then Fail else Got(Head64(s, n), s[n..])
  {
  }

  lemma Word32Cases(s: seq<Byte>)
    ensures VarLen(s) == 1 ==> Varint32(s) == Got(s[0], s[1..])
    ensures VarLen(s) > 1 ==>
              Varint32(s) == match Loop32(s[1..VarLen(s)], 7, Low(s[0]))
                             case Overflow => Fail
                             case Word(bits) => Got(bits, s[VarLen(s)..])
    ensures VarLen(s) == 0 ==> Varint32(s).Fail?
  {
    VarLenMeaning(s);
    var n := VarLen(s);
    if n > 1 {
      assert s[..n][1..] == s[1..n];
    }
  }

  class IStream {
    const buf: array<Byte>
    var state: nat
    var left: nat

    ghost predicate Valid()
      reads this
    {
      state + left <= buf.Length
    }

    /** Where the stream ends; no read moves it. */
    ghost function End(): int
      reads this
    {
      state + left
    }

    /** The bytes not read yet. */
    ghost function Rest(): (r: seq<Byte>)
      requires Valid()
      reads this, buf
      ensures |r| == left
    {
      buf[state..state + left]
    }

    /** What the stream may still read once it stands at `end`. */
    ghost function After(end: int): seq<Byte>
      reads this, buf
    {
      if 0 <= end && end + left <= buf.Length then buf[end..end + left] else []
    }

    /** `pb_istream_from_buffer`. */
    constructor FromBuffer(source: array<Byte>, size: nat)
      requires size <= source.Length
      ensures Valid() && buf == source && state == 0 && left == size
    {
      buf := source;
      state := 0;
      left := size;
    }

    /** The copy `*substream = *stream` with its own limit. */
    constructor Limited(parent: IStream, size: nat)
      requires parent.Valid() && size <= parent.left
      ensures Valid() && buf == parent.buf && state == parent.state && left == size
    {
      buf := parent.buf;
      state := parent.state;
      left := size;
    }

    /** `pb_read`, with `into` null to skip. */
    method Read(into: array?<Byte>, count: nat) returns (ok: bool)
      requires Valid() && (into != null ==> into != buf && count <= into.Length)
      modifies this, if into != null then {into} else {}
      ensures Valid() && End() == old(End())
      ensures ok <==> count <= old(left)
      ensures ok ==> Rest() == old(Rest())[count..]
      ensures ok && into != null ==> into[..] == old(Rest())[..count] + old(into[..])[count..]
      ensures !ok ==> Rest() == old(Rest()) && (into != null ==> into[..] == old(into[..]))
    {
      if count == 0 {
        return true;
      }
      if left < count {
        return false;
      }
      ghost var r := Rest();
      BufRead(into, count);
      left := left - count;
      assert Rest() == r[count..] && buf[old(state)..state] == r[..count];
      return true;
    }

    /** `buf_read`. */
    method BufRead(into: array?<Byte>, count: nat)
      requires state + count <= buf.Length && (into != null ==> into != buf && count <= into.Length)
      modifies this`state, if into != null then {into} else {}
      ensures state == old(state) + count
      ensures into != null ==> into[..] == buf[old(state)..old(state) + count] + old(into[..])[count..]
    {
      var source := state;
      state := state + count;
      if into != null {
        var i := 0;
        while i < count
          invariant i <= count
          invariant state == old(state) + count
          invariant into[..i] == buf[source..source + i] && into[i..] == old(into[..])[i..]
        {
          into[i] := buf[source + i];
          i := i + 1;
        }
        assert into[..] == into[..count] + into[count..];
      }
    }

    /** `pb_readbyte`. */
    method ReadByte() returns (ok: bool, b: Byte)
      requires Valid()
      modifies this
      ensures Valid() && End() == old(End())
      ensures ok <==> old(left) > 0
      ensures ok ==> b == old(Rest())[0] && Rest() == old(Rest())[1..]
      ensures !ok ==> Rest() == old(Rest())
    {
      if left == 0 {
        return false, 0;
      }
      ghost var r := Rest();
      b := buf[state];
      state := state + 1;
      left := left - 1;
      assert b == r[0] && Rest() == r[1..];
      ok := true;
    }
  
    /** `pb_decode_varint32_eof`: `eof` says that not even one byte was there. */
    method DecodeVarint32Eof() returns (ok: bool, value: nat, eof: bool)
      requires Valid()
      modifies this
      ensures Valid() && End() == old(End())
      ensures ok <==> Varint32(old(Rest())).Got?
      ensures ok ==> Varint32(old(Rest())) == Got(value, Rest())
      ensures eof <==> old(Rest()) == []
    {
      ghost var s := Rest();
      var byte;
      ok, byte := ReadByte();
      if !ok {
        return false, 0, true;
      }
      eof := false;
      VarintGoesOn(s, 0);
      if byte < 128 {
        value := byte;
      } else {
        ok, value := Multibyte32(s, byte);
      }
      Word32Cases(s);
    }

    /** The multibyte case, after the first byte. */
    method Multibyte32(ghost s: seq<Byte>, first: Byte) returns (ok: bool, value: nat)
      requires Valid() && s != [] && s[0] == first >= 128 && Rest() == s[1..]
      modifies this
      ensures Valid() && End() == old(End())
      ensures ok <==> VarLen(s) > 1 && Loop32(s[1..VarLen(s)], 7, Low(first)).Word?
      ensures ok ==> Loop32(s[1..VarLen(s)], 7, Low(first)) == Word(value) && Rest() == s[VarLen(s)..]
    {
      ghost var n := VarLen(s);
      ghost var k := 1;
      value := 0;
      var byte;
      var bitpos: nat, result: nat := 7, Low(first);
      VarintGoesOn(s, 1);
      while true
        invariant Valid() && End() == old(End())
        invariant 1 <= k && Continues(s, k) && Rest() == s[k..]
        invariant n > 0 ==> k < n && Loop32(s[1..n], 7, Low(first)) == Loop32(s[k..n], bitpos, result)
        decreases left
      {
        VarintGoesOn(s, k);
        ok, byte := ReadByte();
        if !ok {
          return;
        }
        if n > 0 {
          Loop32At(s, k, n, bitpos, result);
        }
        if bitpos >= 32 {
          var signExtension := if bitpos < 63 then 0xFF else 0x01;
          if Low(byte) != 0 && (result / TWO31 == 0 || byte != signExtension) {
            return false, 0;
          }
        } else {
          result := BitOr(result, Shl32(Low(byte), bitpos));
        }
        bitpos := (bitpos + 7) % 256;
        k := k + 1;
        if byte < 128 {
          break;
        }
      }
      if bitpos == 35 && Low(byte) >= 16 {
        return false, 0;
      }
      value := result;
    }

    /** `pb_decode_varint32`. */
    method DecodeVarint32() returns (ok: bool, value: nat)
      requires Valid()
      modifies this
      ensures Valid() && End() == old(End())
      ensures ok <==> Varint32(old(Rest())).Got?
      ensures ok ==> Varint32(old(Rest())) == Got(value, Rest())
    {
      var eof;
      ok, value, eof := DecodeVarint32Eof();
    }

    /** One byte of a 64-bit varint. */
    method ReadGroup(bitpos: nat, result: nat, ghost s: seq<Byte>, ghost k: nat)
      returns (ok: bool, byte: Byte, bitpos1: nat, result1: nat)
      requires Valid() && k <= |s| && k <= 9 && Rest() == s[k..] && bitpos == 7 * k && result == Head64(s, k)
      modifies this
      ensures Valid() && End() == old(End())
      ensures ok <==> k < |s|
      ensures ok ==> byte == s[k] && Rest() == s[k + 1..] && left < old(left)
      ensures ok ==> bitpos1 == 7 * (k + 1) && result1 == Head64(s, k + 1)
    {
      hide BitOr, Shl64, Head64;
      bitpos1, result1 := bitpos, result;
      ok, byte := ReadByte();
      if ok {
        Accumulate64At(s, k);
        result1 := BitOr(result, Shl64(Low(byte), bitpos));
        bitpos1 := (bitpos + 7) % 256;
      }
    }

    /** `pb_decode_varint`. */
    method DecodeVarint() returns (ok: bool, value: nat)
      requires Valid()
      modifies this
      ensures Valid() && End() == old(End())
      ensures ok <==> Varint64(old(Rest())).Got?
      ensures ok ==> Varint64(old(Rest())) == Got(value, Rest())
    {
      ghost var s := Rest();
      ghost var k := 0;
      NoGroups(s);
      hide Head64, VarLen, Varint64;
      var byte;
      var bitpos: nat, result: nat := 0, 0;
      VarintGoesOn(s, 0);
      Varint64Is(s);
      while true
        invariant Valid() && End() == old(End())
        invariant Continues(s, k) && Rest() == s[k..]
        invariant k <= 10 && bitpos == 7 * k && result == Head64(s, k)
        decreases left
      {
        VarintGoesOn(s, k);
        if bitpos >= 64 {
          return false, 0;
        }
        ok, byte, bitpos, result := ReadGroup(bitpos, result, s, k);
        if !ok {
          return false, 0;
        }
        k := k + 1;
        if byte < 128 {
          break;
        }
      }
      value := result;
    }

    /** `pb_skip_varint`. */
    method SkipVarint() returns (ok: bool)
      requires Valid()
      modifies this
      ensures Valid() && End() == old(End())
      ensures ok <==> VarLen(old(Rest())) > 0
      ensures ok ==> Rest() == old(Rest())[VarLen(old(Rest()))..]
    {
      ghost var s := Rest();
      ghost var k := 0;
      var byte := new Byte[1];
      while true
        invariant Valid() && End() == old(End())
        invariant Continues(s, k) && Rest() == s[k..]
        decreases left
      {
        VarintGoesOn(s, k);
        ok := Read(byte, 1);
        if !ok {
          return false;
        }
        assert byte[..][0] == s[k];
        k := k + 1;
        if byte[0] < 128 {
          return true;
        }
      }
    }

    /** `pb_skip_string`. */
    method SkipString() returns (ok: bool)
      requires Valid()
      modifies this
      ensures Valid() && End() == old(End())
      ensures ok <==> DecodeSpec.Delimited(old(Rest())).Chunk?
      ensures ok ==> Rest() == DecodeSpec.Delimited(old(Rest())).rest
    {
      var length;
      ok, length := DecodeVarint32();
      if ok {
        ok := Read(null, length);
      }
    }

    /** `pb_decode_tag`: a zero key ends a message, as the end of the input does. */
    method DecodeTag() returns (ok: bool, wire: nat, tag: nat, eof: bool)
      requires Valid()
      modifies this
      ensures Valid() && End() == old(End())
      ensures ok <==> DecodeSpec.DecodeTag(old(Rest())).Tag?
      ensures ok ==> DecodeSpec.DecodeTag(old(Rest())) == DecodeSpec.Tag(tag, wire, Rest())
      ensures eof <==> old(Rest()) == [] || DecodeSpec.DecodeTag(old(Rest())).EndTag?
      ensures DecodeSpec.DecodeTag(old(Rest())).EndTag? ==> DecodeSpec.DecodeTag(old(Rest())).rest == Rest()
    {
      wire, tag := 0, 0;
      var temp;
      ok, temp, eof := DecodeVarint32Eof();
      if !ok {
        return;
      }
      if temp == 0 {
        return false, 0, 0, true;
      }
      tag := temp / 8;
      wire := temp % 8;
    }

    /** `pb_skip_field`. */
    method SkipField(wire: nat) returns (ok: bool)
      requires Valid()
      modifies this
      ensures Valid() && End() == old(End())
      ensures ok <==> DecodeSpec.SkipField(wire, old(Rest())).Skipped?
      ensures ok ==> Rest() == DecodeSpec.SkipField(wire, old(Rest())).rest
    {
      if wire == WT_VARINT {
        ok := SkipVarint();
      } else if wire == WT_64BIT {
        ok := Read(null, 8);
      } else if wire == WT_STRING {
        ok := SkipString();
      } else if wire == WT_32BIT {
        ok := Read(null, 4);
      } else {
        ok := false;
      }
    }

    /** The first `size` bytes as a stream of their own; the parent keeps the rest. */
    method Divide(size: nat) returns (sub: IStream)
      requires Valid() && size <= left
      modifies this
      ensures Valid() && fresh(sub) && sub.Valid() && sub.buf == buf
      ensures sub.Rest() == old(Rest())[..size] && After(sub.End()) == old(Rest())[size..]
      ensures sub.End() + left == old(End()) && End() <= old(End()) && sub.left == size
    {
      ghost var r, end := Rest(), state + left;
      sub := new IStream.Limited(this, size);
      left := left - size;
      assert sub.Rest() == buf[state..state + size] == r[..size];
      assert After(sub.End()) == buf[state + size..end] == r[size..];
    }

    /** `pb_make_string_substream`: the parent gives up the announced bytes, which
        the substream may read. */
    method MakeSubstream() returns (ok: bool, sub: IStream)
      requires Valid()
      modifies this
      ensures Valid() && fresh(sub) && sub.Valid() && sub.buf == buf && End() <= old(End())
      ensures ok <==> DecodeSpec.Delimited(old(Rest())).Chunk?
      ensures ok ==> sub.Rest() == DecodeSpec.Delimited(old(Rest())).body
      ensures ok ==> sub.End() + left == old(End()) && After(sub.End()) == DecodeSpec.Delimited(old(Rest())).rest
    {
      var size;
      ok, size := DecodeVarint32();
      if !ok || left < size {
        sub := new IStream.Limited(this, 0);
        return false, sub;
      }
      sub := Divide(size);
    }

    /** `pb_close_string_substream`: whatever the reader of the substream left is
        skipped, so the parent continues right after it. */
    method CloseSubstream(sub: IStream) returns (ok: bool)
      requires Valid() && sub.Valid() && sub != this && sub.buf == buf && sub.End() + left <= buf.Length
      modifies this, sub
      ensures ok && Valid() && End() == old(sub.End()) + left && Rest() == old(After(sub.End()))
    {
      ok := true;
      if sub.left != 0 {
        ok := sub.Read(null, sub.left);
        if !ok {
          return;
        }
      }
      state := sub.state;
    }
  }
}
