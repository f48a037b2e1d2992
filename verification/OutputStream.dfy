/** pb_ostream_t: a stream into a memory buffer, or one that only counts. Every
    method says what it adds to the bytes sent so far. */
module OutputStream {
  import opened Bits
  import opened Varint
  import opened Scalars
  import EncodeSpec

  /** A stream that may send at most `limit` bytes, or any number when sizing, has
      sent `was` and then `now`, where `e` was to be emitted. It succeeds exactly
      when the encoder does and there is room; a failure leaves a prefix. */
  predicate Emitted(sizing: bool, limit: nat, was: seq<Byte>, now: seq<Byte>, e: Emit, ok: bool) {
    && was <= now && now <= was + e.out
    && (ok <==> e.ok && (sizing || |was| + |e.out| <= limit))
    && (ok ==> now == was + e.out)
  }

  /** Success goes on with the second emission. */
  lemma EmittedThen(sizing: bool, limit: nat, was: seq<Byte>, mid: seq<Byte>, now: seq<Byte>, a: Emit, b: Emit,
                    ok: bool)
    requires Emitted(sizing, limit, was, mid, a, true) && Emitted(sizing, limit, mid, now, b, ok)
    ensures Emitted(sizing, limit, was, now, EncodeSpec.Then(a, b), ok)
  {
    assert (was + a.out) + b.out == was + (a.out + b.out);
  }

  /** Failure ends there. */
  lemma EmittedStop(sizing: bool, limit: nat, was: seq<Byte>, mid: seq<Byte>, a: Emit, b: Emit)
    requires Emitted(sizing, limit, was, mid, a, false)
    ensures Emitted(sizing, limit, was, mid, EncodeSpec.Then(a, b), false)
  {
    assert (was + a.out) + b.out == was + (a.out + b.out);
  }

  /** A failure half-way through a longer emission. */
  lemma EmittedGrows(sizing: bool, limit: nat, was: seq<Byte>, now: seq<Byte>, a: Emit, b: Emit)
    requires Emitted(sizing, limit, was, now, a, false) && a.out <= b.out && (!a.ok ==> b == a)
    ensures Emitted(sizing, limit, was, now, b, false)
  {
    assert was + a.out <= was + b.out;
  }

  lemma EmittedNothing(sizing: bool, limit: nat, was: seq<Byte>, ok: bool)
    requires sizing || |was| <= limit
    ensures Emitted(sizing, limit, was, was, Emit(ok, []), ok)
  {
    assert was + [] == was;
  }

  // ---------------------------------------------------------- varint buffers

  /** The bytes the encoding loops put in their buffer: every one with its top bit. */
  function Marked(v: nat): seq<Byte> {
    if v == 0 then [] else [v % 128 + 128] + Marked(v / 128)
  }

  lemma {:induction false} MarkedIsVarint(v: nat)
    requires v > 0
    ensures Marked(v) != [] && |Marked(v)| == |EncVarint(v)|
    ensures var m := Marked(v); m[|m| - 1 := m[|m| - 1] % 128] == EncVarint(v)
  {
    if v >= 128 {
      MarkedIsVarint(v / 128);
    } else {
      assert Marked(v / 128) == [];
    }
  }

  lemma MarkedLength(v: nat)
    requires v < TWO64
    ensures |Marked(v)| <= 10
  {
    if v > 0 {
      MarkedIsVarint(v);
      WordLength(v);
    }
  }

  lemma MarkedStep(done: seq<Byte>, v: nat)
    requires v > 0
    ensures done + Marked(v) == (done + [v % 128 + 128]) + Marked(v / 128)
  {
  }

  /** A 64-bit value with `c` one bits above its low half `w`. */
  ghost predicate Extends(big: nat, w: nat, c: nat) {
    w < TWO32 && big == w + 0x1_0000_0000 * (Pow2(c) - 1)
  }

  /** Shifting the low half right by seven and setting `bits` bits at position 25
      shifts the 64-bit value. */
  lemma WindowStep(big: nat, w: nat, c: nat)
    requires Extends(big, w, c)
    ensures var bits := if c > 7 then 7 else c;
            var ones := 0xFF / Pow2(8 - bits) * 0x200_0000;
            && BitXor(w / 128, ones) == w / 128 + ones
            && Extends(big / 128, w / 128 + ones, c - bits)
            && (c > 0 ==> w / 128 + ones > 0)
    ensures big % 128 == w % 128
  {
    hide BitXor;
    var bits := if c > 7 then 7 else c;
    OnesShifted(bits);
    TopBits(w / 128, Pow2(bits) - 1);
    if c >= 7 {
      Pow2Add(7, c - 7);
      SevenBits(big, w, Pow2(c - 7));
    } else {
      OnesShifted(c);
      FewBits(big, w, Pow2(c));
    }
  }

  lemma TopBits(w: nat, ones: nat)
    requires w < 0x200_0000
    ensures BitXor(w, ones * 0x200_0000) == w + ones * 0x200_0000
  {
    assert Pow2(25) == 0x200_0000 by { PowersOfSeven(); Pow2Add(21, 4); }
    DisjointOr(w, ones, 25);
  }

  lemma OnesShifted(bits: nat)
    requires bits <= 7
    ensures 0xFF / Pow2(8 - bits) == Pow2(bits) - 1 && Pow2(bits) <= 128
  {
    assert Pow2(0) == 1 && Pow2(1) == 2 && Pow2(2) == 4 && Pow2(3) == 8 && Pow2(4) == 16;
    assert Pow2(5) == 32 && Pow2(6) == 64 && Pow2(7) == 128 && Pow2(8) == 256;
  }

  lemma SevenBits(big: nat, w: nat, p: nat)
    requires w < TWO32 && p >= 1 && big == w + 0x1_0000_0000 * (128 * p - 1)
    ensures big % 128 == w % 128
    ensures big / 128 == (w / 128 + 127 * 0x200_0000) + 0x1_0000_0000 * (p - 1)
  {
    DivUnique(big, 128, w / 128 + 127 * 0x200_0000 + 0x1_0000_0000 * (p - 1), w % 128);
  }

  lemma FewBits(big: nat, w: nat, p: nat)
    requires w < TWO32 && 1 <= p <= 64 && big == w + 0x1_0000_0000 * (p - 1)
    ensures big % 128 == w % 128
    ensures big / 128 == w / 128 + (p - 1) * 0x200_0000
    ensures w / 128 + (p - 1) * 0x200_0000 < TWO32
  {
    DivUnique(big, 128, w / 128 + (p - 1) * 0x200_0000, w % 128);
  }

  /** Unset top bit on last byte. */
  method ClearTopBit(buffer: array<Byte>, i: nat, ghost v: nat)
    requires i <= buffer.Length && v > 0 && buffer[..i] == Marked(v)
    modifies buffer
    ensures buffer[..i] == EncVarint(v)
  {
    MarkedIsVarint(v);
    ghost var bytes := buffer[..i];
    buffer[i - 1] := buffer[i - 1] % 128;
    assert buffer[..i] == bytes[i - 1 := bytes[i - 1] % 128];
  }

  /** The bytes put so far and those still to come are those of the whole. */
  ghost predicate Filling(bytes: seq<Byte>, v: nat, whole: nat) {
    bytes + Marked(v) == Marked(whole) && |Marked(whole)| <= 10
  }

  lemma FillingStarts(whole: nat)
    requires whole < TWO64
    ensures Filling([], whole, whole)
  {
    MarkedLength(whole);
    assert [] + Marked(whole) == Marked(whole);
  }

  /** Seven bits and the continuation bit. */
  method PutGroup(buffer: array<Byte>, i: nat, v: nat, ghost big: nat, ghost whole: nat)
    requires buffer.Length == 10 && i <= 10 && big > 0 && v % 128 == big % 128 && Filling(buffer[..i], big, whole)
    modifies buffer
    ensures i < 10 && Filling(buffer[..i + 1], big / 128, whole)
  {
    MarkedStep(buffer[..i], big);
    buffer[i] := v % 128 + 128;
  }

  /** The loop of `pb_encode_varint`. */
  method FillVarint(buffer: array<Byte>, value: nat) returns (i: nat)
    requires buffer.Length == 10 && 0 < value < TWO64
    modifies buffer
    ensures i <= 10 && buffer[..i] == EncVarint(value)
  {
    var v: nat := value;
    i := 0;
    FillingStarts(value);
    while v != 0
      invariant i <= 10 && Filling(buffer[..i], v, value)
    {
      PutGroup(buffer, i, v, v, value);
      v := v / 128;
      i := i + 1;
    }
    ClearTopBit(buffer, i, value);
  }

  /** The window still has bits to send while ones are missing. */
  ghost predicate Window(big: nat, w: nat, c: nat) {
    Extends(big, w, c) && (c > 0 ==> w > 0)
  }

  lemma WindowLow(big: nat, w: nat, c: nat)
    requires Window(big, w, c)
    ensures big % 128 == w % 128 && (w == 0 <==> big == 0)
  {
    WindowStep(big, w, c);
  }

  /** Seven bits leave the window at the bottom, ones enter it at the top. */
  method SlideWindow(w: nat, c: nat, ghost big: nat) returns (next: nat, left: nat)
    requires Window(big, w, c)
    ensures Window(big / 128, next, left)
  {
    WindowStep(big, w, c);
    next := w / 128;
    left := c;
    if left != 0 {
      var bits := if left > 7 then 7 else left;
      next := BitXor(next, 0xFF / Pow2(8 - bits) * 0x200_0000);
      left := left - bits;
    }
  }

  lemma FirstWindow(k: nat)
    requires 1 <= k <= TWO31
    ensures Window(TWO64 - k, TWO32 - k, 32)
  {
    PowersOfSeven();
    Pow2Add(28, 4);
    assert Pow2(4) == 16;
  }

  /** What is known of the loop below: the bytes put, and the window on the rest. */
  ghost predicate Sliding(bytes: seq<Byte>, v: nat, c: nat, big: nat, whole: nat) {
    Filling(bytes, big, whole) && Window(big, v, c)
  }

  /** One group out of the window. */
  method NegativeGroup(buffer: array<Byte>, i: nat, v: nat, c: nat, ghost big: nat, ghost whole: nat)
    returns (next: nat, left: nat)
    requires buffer.Length == 10 && i <= 10 && v > 0 && Sliding(buffer[..i], v, c, big, whole)
    modifies buffer
    ensures i < 10 && big / 128 < big && Sliding(buffer[..i + 1], next, left, big / 128, whole)
  {
    WindowLow(big, v, c);
    PutGroup(buffer, i, v, big, whole);
    next, left := SlideWindow(v, c, big);
  }

  lemma WindowEmpty(bytes: seq<Byte>, c: nat, big: nat, whole: nat)
    requires Sliding(bytes, 0, c, big, whole)
    ensures bytes == Marked(whole)
  {
    WindowLow(big, 0, c);
  }

  /** The loop of `pb_encode_negative_varint`: a 32-bit window slides over the
      64-bit value, whose upper half, all ones, is filled in from the top. */
  method FillNegativeVarint(buffer: array<Byte>, value: nat, ghost whole: nat) returns (i: nat)
    requires buffer.Length == 10 && Window(whole, value, 32) && 0 < whole < TWO64
    modifies buffer
    ensures i <= 10 && buffer[..i] == EncVarint(whole)
  {
    var v: nat, compensation: nat := value, 32;
    ghost var big: nat := whole;
    i := 0;
    FillingStarts(whole);
    while v != 0
      invariant i <= 10 && Sliding(buffer[..i], v, compensation, big, whole)
      decreases big
    {
      v, compensation := NegativeGroup(buffer, i, v, compensation, big, whole);
      big := big / 128;
      i := i + 1;
    }
    WindowEmpty(buffer[..i], compensation, big, whole);
    ClearTopBit(buffer, i, whole);
  }

  /** The overflow test of `pb_write` and its limit test together. */
  lemma FullExactly(written: nat, count: nat, max: nat)
    requires written <= max < TWO64 && count < TWO64
    ensures (U64(written + count) < written || U64(written + count) > max) <==> written + count > max
    ensures written + count <= max ==> U64(written + count) == written + count
  {
    U32Small(written + count);
    if written + count >= TWO64 {
      U64Add(1, written + count - TWO64);
      U32Small(written + count - TWO64);
    }
  }

  class OStream {
    const sizing: bool                // callback == NULL
    const buf: array<Byte>
    const maxSize: nat
    ghost const start: nat
    var state: nat
    var written: nat
    /** Everything sent since the stream was made. */
    ghost var sent: seq<Byte>

    ghost predicate Valid()
      reads this, buf
    {
      && written == U64(|sent|)
      && (!sizing ==>
            && written == |sent| && state == start + written
            && written <= maxSize && start + maxSize <= buf.Length < TWO64
            && buf[start..state] == sent)
    }

    /** The stream has taken `e`, as far as there was room. */
    twostate predicate Sends(e: Emit, ok: bool)
      reads this, buf
    {
      && Valid() && Emitted(sizing, maxSize, old(sent), sent, e, ok)
      && (!sizing ==> start <= buf.Length && buf[..start] == old(buf[..start]))
    }

    /** `pb_ostream_from_buffer`. */
    constructor FromBuffer(target: array<Byte>, size: nat)
      requires size <= target.Length < TWO64
      ensures Valid() && sent == [] && !sizing && buf == target && start == 0 && maxSize == size
    {
      sizing := false;
      buf := target;
      maxSize := size;
      start := 0;
      state := 0;
      written := 0;
      sent := [];
    }

    /** PB_OSTREAM_SIZING. */
    constructor Sizing()
      ensures Valid() && sent == [] && sizing && fresh(buf)
    {
      sizing := true;
      buf := new Byte[0];
      maxSize := 0;
      start := 0;
      state := 0;
      written := 0;
      sent := [];
    }

    /** The rest of a buffer stream, limited to `size` bytes. */
    constructor Limited(parent: OStream, size: nat)
      requires parent.Valid() && !parent.sizing && parent.written + size <= parent.maxSize
      ensures Valid() && sent == [] && !sizing && buf == parent.buf && maxSize == size && start == parent.state
    {
      sizing := false;
      buf := parent.buf;
      maxSize := size;
      start := parent.state;
      state := parent.state;
      written := 0;
      sent := [];
    }

    /** The parent goes on where the substream has stopped. */
    method Resume(sub: OStream)
      requires Valid() && !sizing && sub != this && sub.Valid() && !sub.sizing && sub.buf == buf
      requires sub.start == state && written + sub.maxSize <= maxSize
      modifies this`written, this`state, this`sent
      ensures Valid() && sent == old(sent) + sub.sent
    {
      U32Small(written + sub.written);
      written := U64(written + sub.written);
      state := sub.state;
      sent := sent + sub.sent;
      assert buf[start..state] == buf[start..sub.start] + buf[sub.start..state];
    }

    /** `pb_write`. A sizing stream does not look at the data. */
    method Write(data: seq<Byte>, count: nat, ghost e: seq<Byte>) returns (ok: bool)
      requires Valid() && count == U64(|e|) && (!sizing ==> data == e && |e| < TWO64)
      modifies this, buf
      ensures Sends(Emit(true, e), ok) && (!ok ==> sent == old(sent))
    {
      hide U64;
      U32Small(|e|);
      U64Sum(|sent|, |e|);
      if !sizing {
        FullExactly(written, count, maxSize);
      }
      if count > 0 && !sizing {
        if U64(written + count) < written || U64(written + count) > maxSize {
          return false;
        }
        BufWrite(data);
      }
      written := U64(written + count);
      sent := sent + e;
      ok := true;
    }

    /** `buf_write`. */
    method BufWrite(data: seq<Byte>)
      requires state + |data| <= buf.Length
      modifies this`state, buf
      ensures state == old(state) + |data|
      ensures buf[..] == old(buf[..])[..old(state)] + data + old(buf[..])[state..]
    {
      var dest := state;
      state := dest + |data|;
      var i := 0;
      while i < |data|
        invariant i <= |data| && state == dest + |data|
        invariant buf[..dest] == old(buf[..dest]) && buf[dest..dest + i] == data[..i]
        invariant buf[dest + i..] == old(buf[dest + i..])
      {
        buf[dest + i] := data[i];
        i := i + 1;
      }
    }

    /** `pb_encode_varint`. */
    method EncodeVarint(value: nat) returns (ok: bool)
      requires Valid() && value < TWO64
      modifies this, buf
      ensures Sends(Emit(true, EncVarint(value)), ok)
    {
      if value <= 0x7F {
        ok := Write([value], 1, [value]);
        return;
      }
      var buffer := new Byte[10];
      var i := FillVarint(buffer, value);
      ok := Write(buffer[..i], i, EncVarint(value));
    }

    /** `pb_encode_negative_varint`, used where no 64-bit type exists: `value` is the
        low half of the sign extension of the int32 -k. The bytes are those of the
        64-bit form. */
    method EncodeNegativeVarint(value: nat, ghost k: nat) returns (ok: bool)
      requires 1 <= k <= TWO31 && value == TWO32 - k
      requires Valid()
      modifies this, buf
      ensures Sends(Emit(true, EncVarint(TWO64 - k)), ok) && |EncVarint(TWO64 - k)| == 10
    {
      NegativeShape(k);
      FirstWindow(k);
      var buffer := new Byte[10];
      var i := FillNegativeVarint(buffer, value, TWO64 - k);
      ok := Write(buffer[..i], i, EncVarint(TWO64 - k));
    }
  }
}
