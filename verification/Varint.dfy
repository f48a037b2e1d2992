/** Base 128 varints: what the encoder emits and what the two decoders accept.
    The loops that compute these values are in InputStream and OutputStream. */
module Varint {
  import opened Bits

  datatype Parsed<T> = Fail | Got(value: T, rest: seq<Byte>)

  /** The bytes `pb_encode_varint` emits for an unsigned value. */
  function EncVarint(v: nat): (r: seq<Byte>)
    ensures |r| >= 1
  {
    if v < 128 then [v] else [v % 128 + 128] + EncVarint(v / 128)
  }

  /** Length of the varint at the head of `s`: up to and including the first
      byte without the continuation bit; 0 when there is no such byte. */
  function VarLen(s: seq<Byte>): (n: nat)
    ensures n <= |s|
  {
    if s == [] then 0
    else if s[0] < 128 then 1
    else var n := VarLen(s[1..]); if n == 0 then 0 else n + 1
  }

  /** The payload of one byte. */
  function Low(b: Byte): (r: nat)
    ensures r < 128
  {
    b % 128
  }

  /** The seven-bit groups of `s`, least significant first, as one number. */
  function Groups(s: seq<Byte>): nat {
    if s == [] then 0 else Low(s[0]) + 128 * Groups(s[1..])
  }

  /** `pb_decode_varint`: at most ten bytes, the value taken modulo 2^64. */
  function Varint64(s: seq<Byte>): (r: Parsed<nat>)
    ensures r.Got? ==> r.value < TWO64 && |r.rest| < |s|
  {
    var n := VarLen(s);
    if n == 0 || n > 10 then Fail else Got(U64(Groups(s[..n])), s[n..])
  }

  datatype Word = Overflow | Word(bits: nat)

  /** One pass of the loop of `pb_decode_varint32`: the new contents of `result`
      after byte `b` at `bitpos`, or the overflow error. */
  function Accumulate32(result: nat, bitpos: nat, b: Byte): (w: Word)
    ensures w.Word? && result < TWO32 && bitpos >= 32 ==> w.bits == result
  {
    if bitpos >= 32 then
      var signExtension := if bitpos < 63 then 0xFF else 0x01;
      if Low(b) != 0 && (result / TWO31 == 0 || b != signExtension) then Overflow else Word(result)
    else
      Word(BitOr(result, Shl32(Low(b), bitpos)))
  }

  /** The rest of the loop on the bytes of one varint. `bitpos` is an eight-bit
      counter; a varint of exactly five bytes must fit in 32 bits. */
  function Loop32(bs: seq<Byte>, bitpos: nat, result: nat): Word {
    if bs == [] then Word(result)
    else
      var w := Accumulate32(result, bitpos, bs[0]);
      var next := (bitpos + 7) % 256;
      if w.Overflow? then Overflow
      else if |bs| == 1 then (if next == 35 && Low(bs[0]) >= 16 then Overflow else w)
      else Loop32(bs[1..], next, w.bits)
  }

  function Word32(bs: seq<Byte>): Word {
    if bs == [] then Overflow
    else if |bs| == 1 then Word(Low(bs[0]))
    else Loop32(bs[1..], 7, Low(bs[0]))
  }

  /** `pb_decode_varint32`. */
  function Varint32(s: seq<Byte>): (r: Parsed<nat>)
    ensures r.Got? ==> |r.rest| < |s|
  {
    var n := VarLen(s);
    var w := Word32(s[..n]);
    if w.Overflow? then Fail else Got(w.bits, s[n..])
  }

  // ---------------------------------------------------------------- lengths

  /** `VarLen` is the position after the first byte without the continuation bit. */
  lemma {:induction false} VarLenMeaning(s: seq<Byte>)
    ensures VarLen(s) > 0 ==> s[VarLen(s) - 1] < 128 && forall i :: 0 <= i < VarLen(s) - 1 ==> s[i] >= 128
    ensures VarLen(s) == 0 <==> forall i :: 0 <= i < |s| ==> s[i] >= 128
  {
    if s == [] {
    } else {
      VarLenMeaning(s[1..]);
      assert forall i :: 1 <= i < |s| ==> s[i] == s[1..][i - 1];
    }
  }

  lemma {:induction false} VarLenAt(s: seq<Byte>, k: nat)
    requires k < |s| && s[k] < 128 && forall i :: 0 <= i < k ==> s[i] >= 128
    ensures VarLen(s) == k + 1
  {
    if k == 0 {
    } else {
      VarLenAt(s[1..], k - 1);
    }
  }

  lemma {:induction false} VarLenAppend(s: seq<Byte>, t: seq<Byte>)
    requires VarLen(s) > 0
    ensures VarLen(s + t) == VarLen(s)
    ensures (s + t)[..VarLen(s)] == s[..VarLen(s)] && (s + t)[VarLen(s)..] == s[VarLen(s)..] + t
  {
    assert (s + t)[1..] == s[1..] + t;
    if s[0] < 128 {
    } else {
      VarLenAppend(s[1..], t);
    }
  }

  /** Neither decoder looks past the varint it accepts. */
  lemma VarintLocal(s: seq<Byte>, t: seq<Byte>)
    ensures Varint64(s).Got? ==> Varint64(s + t) == Got(Varint64(s).value, Varint64(s).rest + t)
    ensures Varint32(s).Got? ==> Varint32(s + t) == Got(Varint32(s).value, Varint32(s).rest + t)
  {
    if VarLen(s) > 0 {
      VarLenAppend(s, t);
    }
  }

  lemma {:induction false} EncVarintShape(v: nat)
    ensures VarLen(EncVarint(v)) == |EncVarint(v)|
    ensures Groups(EncVarint(v)) == v
  {
    if v < 128 {
    } else {
      EncVarintShape(v / 128);
      assert EncVarint(v)[1..] == EncVarint(v / 128);
    }
  }

  lemma {:induction false} EncVarintLength(v: nat, n: nat)
    requires n >= 1 && v < Pow2(7 * n)
    ensures |EncVarint(v)| <= n
  {
    if v < 128 {
    } else {
      SevenMore(n - 1);
      assert Pow2(0) == 1;
      EncVarintLength(v / 128, n - 1);
    }
  }

  lemma SevenMore(n: nat)
    ensures Pow2(7 * (n + 1)) == 128 * Pow2(7 * n)
  {
    assert Pow2(7) == 128;
    Pow2Add(7, 7 * n);
  }

  lemma {:induction false} GroupsBound(s: seq<Byte>)
    ensures Groups(s) < Pow2(7 * |s|)
  {
    if s == [] {
    } else {
      GroupsBound(s[1..]);
      SevenMore(|s| - 1);
    }
  }

  lemma PowersOfSeven()
    ensures Pow2(7) == 128 && Pow2(14) == 0x4000 && Pow2(21) == 0x20_0000 && Pow2(28) == 0x1000_0000
    ensures Pow2(35) == 0x8_0000_0000
  {
    assert Pow2(7) == 128;
    SevenMore(1);
    SevenMore(2);
    SevenMore(3);
    SevenMore(4);
  }

  /** Words of 64 and 32 bits take at most ten and five bytes. */
  lemma WordLength(v: nat)
    ensures v < TWO64 ==> |EncVarint(v)| <= 10
    ensures v < TWO32 ==> |EncVarint(v)| <= 5
  {
    PowersOfSeven();
    Pow2Add(35, 35);
    if v < TWO64 { EncVarintLength(v, 10); }
    if v < TWO32 { EncVarintLength(v, 5); }
  }

  // ------------------------------------------------------------- 64-bit laws

  lemma WholeVarint(e: seq<Byte>, t: seq<Byte>)
    requires VarLen(e) == |e| > 0
    ensures VarLen(e + t) == |e| && (e + t)[..|e|] == e && (e + t)[|e|..] == t
  {
    VarLenAppend(e, t);
  }

  lemma ParseAt(s: seq<Byte>, e: seq<Byte>, t: seq<Byte>)
    requires VarLen(s) == |e| > 0 && s[..|e|] == e && s[|e|..] == t
    ensures |e| <= 10 ==> Varint64(s) == Got(U64(Groups(e)), t)
    ensures Word32(e).Word? ==> Varint32(s) == Got(Word32(e).bits, t)
  {
  }

  lemma Parse64(e: seq<Byte>, v: nat, t: seq<Byte>)
    requires v < TWO64 && VarLen(e) == |e| && 1 <= |e| <= 10 && Groups(e) == v
    ensures Varint64(e + t) == Got(v, t)
  {
    WholeVarint(e, t);
    ParseAt(e + t, e, t);
    U32Small(v);
  }

  /** Decoding an encoded value gives it back and leaves the suffix alone. */
  lemma RoundTrip64(v: nat, t: seq<Byte>)
    requires v < TWO64
    ensures |EncVarint(v)| <= 10
    ensures Varint64(EncVarint(v) + t) == Got(v, t)
  {
    EncVarintShape(v);
    WordLength(v);
    Parse64(EncVarint(v), v, t);
  }

  /** No byte string the decoder accepts for `v` is shorter than the encoding. */
  lemma EncodingIsMinimal(s: seq<Byte>, v: nat)
    requires Varint64(s) == Got(v, [])
    ensures |EncVarint(v)| <= |s|
  {
    assert s[..|s|] == s;
    GroupsBound(s);
    EncVarintLength(v, |s|);
  }

  // -------------------------------------------------------- the 64-bit loop

  lemma Pow2Of63()
    ensures Pow2(56) == 0x100_0000_0000_0000 && Pow2(63) == TWO63
  {
    PowersOfSeven();
    Pow2Add(35, 21);
    SevenMore(8);
  }

  lemma {:induction false} Pow2Monotone(a: nat, b: nat)
    requires a <= b
    ensures Pow2(a) <= Pow2(b)
    decreases b
  {
    if a >= b {
    } else {
      Pow2Monotone(a, b - 1);
    }
  }

  lemma JoinGroup64(g: nat, c: nat, k: nat)
    requires g < Pow2(k) && c * Pow2(k) < TWO64
    ensures BitOr(g, Shl64(c, k)) == g + c * Pow2(k)
  {
    Shl64Value(c, k);
    U32Small(c * Pow2(k));
    DisjointOr(g, c, k);
  }

  lemma LowGroup64(g: nat, c: nat, p: nat)
    requires g < p <= 0x100_0000_0000_0000 && c < 128
    ensures c * p < TWO64 && g + c * p < TWO63
  {
    MulLe(p, c, 127);
  }

  /** Of the tenth group only one bit fits. */
  lemma TenthSum(g: nat, c: nat)
    requires g < TWO63
    ensures U64(g + c * 0x8000_0000_0000_0000) == g + c % 2 * 0x8000_0000_0000_0000
  {
    U64Add(c / 2, g + c % 2 * 0x8000_0000_0000_0000);
  }

  lemma TenthGroup(g: nat, c: nat)
    requires g < TWO63
    ensures BitOr(g, Shl64(c, 63)) == U64(g + c * TWO63)
  {
    hide Pow2, BitOr, Shl64, U64;
    Pow2Of63();
    Shl64Value(c, 63);
    TenthSum(0, c);
    TenthSum(g, c);
    DisjointOr(g, c % 2, 63);
  }

  /** One pass of the loop of `pb_decode_varint`. */
  lemma Accumulate64(p: seq<Byte>, b: Byte)
    requires |p| <= 9
    ensures U64(Groups(p)) == Groups(p)
    ensures BitOr(U64(Groups(p)), Shl64(Low(b), 7 * |p|)) == U64(Groups(p + [b]))
  {
    hide BitOr, Shl64, Groups, Low;
    var g, c, k := Groups(p), Low(b), 7 * |p|;
    GroupsSnoc(p, b);
    GroupsBound(p);
    Pow2Of63();
    Pow2Monotone(k, 63);
    U32Small(g);
    if |p| == 9 {
      TenthGroup(g, c);
    } else {
      Pow2Monotone(k, 56);
      LowGroup64(g, c, Pow2(k));
      JoinGroup64(g, c, k);
      U32Small(g + c * Pow2(k));
    }
  }

  // ------------------------------------------------------------- 32-bit laws

  lemma GroupsOne(b: Byte)
    ensures Groups([b]) == Low(b)
  {
    assert Groups([b]) == Low(b) + 128 * Groups([b][1..]);
  }

  lemma {:induction false} GroupsSnoc(s: seq<Byte>, b: Byte)
    ensures Groups(s + [b]) == Groups(s) + Low(b) * Pow2(7 * |s|)
  {
    if s == [] {
      assert s + [b] == [b];
      GroupsOne(b);
    } else {
      GroupsSnoc(s[1..], b);
      assert (s + [b])[1..] == s[1..] + [b];
      SevenMore(|s| - 1);
      Scale(Low(b), Pow2(7 * (|s| - 1)));
    }
  }

  lemma Scale(c: nat, p: nat)
    ensures 128 * (c * p) == c * (128 * p)
  {
  }

  lemma HighSum(g: nat, c: nat, p: nat)
    ensures U32(g + c * (0x1_0000_0000 * p)) == U32(g)
  {
    assert c * (0x1_0000_0000 * p) == 0x1_0000_0000 * (c * p);
    U32Add(c * p, g);
  }

  /** Bytes from the sixth on only pad a 32-bit word. */
  lemma Pow2Of32()
    ensures Pow2(32) == TWO32
  {
    PowersOfSeven();
    Pow2Add(28, 4);
    assert Pow2(4) == 16;
  }

  lemma HighGroup(g: nat, c: nat, k: nat)
    requires k >= 32
    ensures U32(g + c * Pow2(k)) == U32(g)
  {
    hide Pow2, U32;
    Pow2Of32();
    Pow2Add(32, k - 32);
    HighSum(g, c, Pow2(k - 32));
  }

  lemma JoinGroup(g: nat, c: nat, k: nat)
    requires g < Pow2(k) && c * Pow2(k) < TWO32
    ensures BitOr(g, Shl32(c, k)) == g + c * Pow2(k)
  {
    Shl32Value(c, k);
    U32Small(c * Pow2(k));
    DisjointOr(g, c, k);
  }

  lemma LowGroup(g: nat, c: nat, j: nat)
    requires 1 <= j <= 3 && g < Pow2(7 * j) && c < 128
    ensures g < TWO32 && g + c * Pow2(7 * j) < 0x1000_0000
    ensures BitOr(g, Shl32(c, 7 * j)) == g + c * Pow2(7 * j)
  {
    var p := Pow2(7 * j);
    assert p <= 0x20_0000 by { PowersOfSeven(); }
    assert c * p <= 127 * p;
    JoinGroup(g, c, 7 * j);
  }

  lemma FifthSum(g: nat, c: nat)
    requires g < 0x1000_0000 && c < 128
    ensures U32(g + c * 0x1000_0000) == g + c % 16 * 0x1000_0000
  {
    U32Add(c / 16, g + c % 16 * 0x1000_0000);
  }

  lemma Shift28(c: nat)
    requires c < 128
    ensures Shl32(c, 28) == c % 16 * 0x1000_0000
  {
    hide Pow2, Shl32, U32;
    PowersOfSeven();
    Shl32Value(c, 28);
    FifthSum(0, c);
  }

  lemma Or28(g: nat, d: nat)
    requires g < 0x1000_0000
    ensures BitOr(g, d * 0x1000_0000) == g + d * 0x1000_0000
  {
    assert Pow2(28) == 0x1000_0000 by { PowersOfSeven(); }
    DisjointOr(g, d, 28);
  }

  /** Of the fifth group only four bits fit. */
  lemma FifthGroup(g: nat, c: nat)
    requires g < 0x1000_0000 && c < 128
    ensures BitOr(g, Shl32(c, 28)) == U32(g + c * 0x1000_0000)
    ensures g + c * 0x1000_0000 < TWO32 <==> c < 16
  {
    Shift28(c);
    Or28(g, c % 16);
    FifthSum(g, c);
  }

  /** The word after the bytes `p` is the low half of their value, and one more
      byte keeps it so. */
  lemma AccumulateStep(p: seq<Byte>, b: Byte)
    requires 1 <= |p|
    ensures var w := Accumulate32(U32(Groups(p)), 7 * |p|, b);
            w.Word? ==> w.bits == U32(Groups(p + [b]))
    ensures |p| <= 4 ==> Accumulate32(U32(Groups(p)), 7 * |p|, b).Word?
    ensures |p| == 4 ==> (Groups(p + [b]) < TWO32 <==> Low(b) < 16)
    ensures |p| <= 3 ==> Groups(p + [b]) < TWO32
  {
    hide Groups, Pow2, BitOr, Shl32;
    var g, c, k := Groups(p), Low(b), 7 * |p|;
    GroupsSnoc(p, b);
    if |p| >= 5 {
      HighGroup(g, c, k);
    } else {
      GroupsBound(p);
      LowBytes(g, c, |p|, Pow2(k));
    }
  }

  lemma LowBytes(g: nat, c: nat, j: nat, p: nat)
    requires 1 <= j <= 4 && p == Pow2(7 * j) && g < p && c < 128
    ensures U32(g) == g && BitOr(g, Shl32(c, 7 * j)) == U32(g + c * p)
    ensures j == 4 ==> (g + c * p < TWO32 <==> c < 16)
    ensures j <= 3 ==> g + c * p < TWO32
  {
    hide BitOr, Shl32, Pow2;
    if j == 4 {
      assert p == 0x1000_0000 by { PowersOfSeven(); }
      FifthGroup(g, c);
    } else {
      LowGroup(g, c, j);
    }
  }

  lemma Loop32Step(bs: seq<Byte>, b: Byte, q: seq<Byte>, k: nat, r: nat)
    requires |bs| > 1 && bs[0] == b && bs[1..] == q && k < 100
    ensures Accumulate32(r, k, b).Word? ==> Loop32(bs, k, r) == Loop32(q, k + 7, Accumulate32(r, k, b).bits)
    ensures Accumulate32(r, k, b).Overflow? ==> Loop32(bs, k, r) == Overflow
  {
    hide Accumulate32;
  }

  lemma {:induction false} Loop32Value(p: seq<Byte>, q: seq<Byte>)
    requires 1 <= |p| && q != [] && |p| + |q| <= 10
    ensures var w := Loop32(q, 7 * |p|, U32(Groups(p)));
            w.Word? ==> w.bits == U32(Groups(p + q))
    ensures |p| + |q| <= 5 ==>
              (Loop32(q, 7 * |p|, U32(Groups(p))).Word? <==> Groups(p + q) < TWO32)
    decreases |q|
  {
    AccumulateStep(p, q[0]);
    if |q| == 1 {
      assert q == [q[0]];
    } else {
      Loop32Step(q, q[0], q[1..], 7 * |p|, U32(Groups(p)));
      assert p + q == (p + [q[0]]) + q[1..];
      Loop32Value(p + [q[0]], q[1..]);
    }
  }

  /** A varint of at most ten bytes that the 32-bit decoder accepts has the low
      half of its value; one of at most five bytes is accepted exactly when the
      value fits. */
  lemma Word32Value(bs: seq<Byte>)
    requires 1 <= |bs| <= 10
    ensures Word32(bs).Word? ==> Word32(bs).bits == U32(Groups(bs))
    ensures |bs| <= 5 ==> (Word32(bs).Word? <==> Groups(bs) < TWO32)
  {
    GroupsOne(bs[0]);
    assert [bs[0]] + bs[1..] == bs;
    if |bs| > 1 {
      Loop32Value([bs[0]], bs[1..]);
    }
  }

  /** `pb_decode_varint32` refines `pb_decode_varint`: where both accept, both
      stop at the same place and the word is the value modulo 2^32, with nothing
      lost in a varint of at most five bytes. */
  lemma Varint32RefinesVarint64(s: seq<Byte>)
    requires Varint32(s).Got? && Varint64(s).Got?
    ensures Varint32(s).rest == Varint64(s).rest
    ensures Varint32(s).value == U32(Varint64(s).value)
    ensures VarLen(s) <= 5 ==> Varint32(s).value == Varint64(s).value
  {
    var bs := s[..VarLen(s)];
    Word32Value(bs);
    U32OfU64(Groups(bs));
    U32Small(Groups(bs));
  }

  /** A word with `k` bits. */
  lemma {:induction false} OrBound(a: nat, b: nat, k: nat)
    requires a < Pow2(k) && b < Pow2(k)
    ensures BitOr(a, b) < Pow2(k)
    decreases k
  {
    if a == 0 || b == 0 {
    } else {
      OrBound(a / 2, b / 2, k - 1);
    }
  }

  lemma {:induction false} Loop32Bound(bs: seq<Byte>, bitpos: nat, result: nat)
    requires result < Pow2(32) && Pow2(32) == TWO32
    ensures Loop32(bs, bitpos, result).Word? ==> Loop32(bs, bitpos, result).bits < TWO32
    decreases |bs|
  {
    if bs == [] {
    } else {
      OrBound(result, Shl32(Low(bs[0]), bitpos), 32);
      if Accumulate32(result, bitpos, bs[0]).Word? {
        Loop32Bound(bs[1..], (bitpos + 7) % 256, Accumulate32(result, bitpos, bs[0]).bits);
      }
    }
  }

  /** However long the varint, the 32-bit decoder returns a word. */
  lemma Varint32Bound(s: seq<Byte>)
    ensures Varint32(s).Got? ==> Varint32(s).value < TWO32
  {
    assert Pow2(32) == TWO32 by { PowersOfSeven(); Pow2Add(28, 4); assert Pow2(4) == 16; }
    var bs := s[..VarLen(s)];
    if |bs| > 1 {
      Loop32Bound(bs[1..], 7, Low(bs[0]));
    }
  }

  lemma Parse32(e: seq<Byte>, w: nat, t: seq<Byte>)
    requires VarLen(e) == |e| > 0 && Word32(e) == Word(w)
    ensures Varint32(e + t) == Got(w, t)
  {
    WholeVarint(e, t);
    ParseAt(e + t, e, t);
  }

  /** Every canonical varint below 2^32 is accepted, with any suffix. */
  lemma RoundTrip32(v: nat, t: seq<Byte>)
    requires v < TWO32
    ensures |EncVarint(v)| <= 5
    ensures Varint32(EncVarint(v) + t) == Got(v, t)
  {
    EncVarintShape(v);
    WordLength(v);
    U32Small(v);
    Word32Value(EncVarint(v));
    Parse32(EncVarint(v), v, t);
  }

  /** The bytes of the 64-bit sign extension of the int32 value -k. */
  const SIGN_TAIL: seq<Byte> := [0xFF, 0xFF, 0xFF, 0xFF, 0x01]

  lemma NegativeShape(k: nat)
    requires 1 <= k <= TWO31
    ensures |EncVarint(TWO64 - k)| == 10 && EncVarint(TWO64 - k)[5..] == SIGN_TAIL
  {
    var v := TWO64 - k;
    assert v / 128 / 128 / 128 / 128 / 128 == 0x1FFF_FFFF;
    assert EncVarint(0x1FFF_FFFF) == SIGN_TAIL;
    Unfold5(v);
  }

  lemma Unfold5(v: nat)
    requires v / 128 / 128 / 128 / 128 / 128 > 0
    ensures |EncVarint(v)| == 5 + |EncVarint(v / 128 / 128 / 128 / 128 / 128)|
    ensures EncVarint(v)[5..] == EncVarint(v / 128 / 128 / 128 / 128 / 128)
  {
    Unfold1(v / 128 / 128 / 128 / 128, 0);
    Unfold1(v / 128 / 128 / 128, 1);
    Unfold1(v / 128 / 128, 2);
    Unfold1(v / 128, 3);
    Unfold1(v, 4);
  }

  lemma Unfold1(v: nat, n: nat)
    requires v >= 128 && |EncVarint(v / 128)| >= n
    ensures EncVarint(v)[n + 1..] == EncVarint(v / 128)[n..] && |EncVarint(v)| == 1 + |EncVarint(v / 128)|
  {
  }

  /** Sign-extension bytes leave a word with its top bit set alone. */
  lemma SignTail(w: nat)
    requires TWO31 <= w < TWO32
    ensures Loop32(SIGN_TAIL, 35, w) == Word(w)
  {
    assert Loop32(SIGN_TAIL[4..], 63, w) == Word(w);
    assert SIGN_TAIL[3..][1..] == SIGN_TAIL[4..] && SIGN_TAIL[2..][1..] == SIGN_TAIL[3..];
    assert SIGN_TAIL[1..][1..] == SIGN_TAIL[2..];
    assert Loop32(SIGN_TAIL[3..], 56, w) == Word(w);
    assert Loop32(SIGN_TAIL[2..], 49, w) == Word(w);
    assert Loop32(SIGN_TAIL[1..], 42, w) == Word(w);
  }

  /** The first five bytes never overflow while more bytes follow. */
  lemma {:induction false} HeadThenTail(p: seq<Byte>, q: seq<Byte>, tail: seq<Byte>)
    requires |p| >= 1 && |p| + |q| == 5 && tail != []
    ensures Loop32(q + tail, 7 * |p|, U32(Groups(p))) == Loop32(tail, 35, U32(Groups(p + q)))
    decreases |q|
  {
    hide Accumulate32, Groups, U32;
    if q == [] {
      assert q + tail == tail && p + q == p;
    } else {
      AccumulateStep(p, q[0]);
      Loop32Step(q + tail, q[0], q[1..] + tail, 7 * |p|, U32(Groups(p)));
      assert p + q == (p + [q[0]]) + q[1..];
      HeadThenTail(p + [q[0]], q[1..], tail);
    }
  }

  lemma PowZero()
    ensures Pow2(0) == 1
  {
  }

  lemma {:induction false} GroupsAppend(p: seq<Byte>, q: seq<Byte>)
    ensures Groups(p + q) == Groups(p) + Pow2(7 * |p|) * Groups(q)
  {
    hide Pow2, Groups;
    if p == [] {
      assert p + q == q;
      PowZero();
      GroupsOfNone();
    } else {
      GroupsAppend(p[1..], q);
      assert (p + q)[1..] == p[1..] + q;
      SevenMore(|p| - 1);
      FirstGroup(p);
      FirstGroup(p + q);
      GroupShift(Low(p[0]), Groups(p[1..]), Pow2(7 * (|p| - 1)), Groups(q));
    }
  }

  lemma GroupsOfNone()
    ensures Groups([]) == 0
  {
  }

  lemma FirstGroup(s: seq<Byte>)
    requires s != []
    ensures Groups(s) == Low(s[0]) + 128 * Groups(s[1..])
  {
  }

  lemma GroupShift(low: nat, a: nat, p: nat, g: nat)
    ensures low + 128 * (a + p * g) == (low + 128 * a) + (128 * p) * g
  {
  }

  /** The 64-bit sign extension of a negative int32 takes ten bytes, and the
      32-bit decoder reads the int32 back from them. */
  lemma NegativeAccepted32(k: nat, t: seq<Byte>)
    requires 1 <= k <= TWO31
    ensures |EncVarint(TWO64 - k)| == 10
    ensures Varint32(EncVarint(TWO64 - k) + t) == Got(TWO32 - k, t)
  {
    NegativeShape(k);
    EncVarintShape(TWO64 - k);
    NegativeWord(EncVarint(TWO64 - k), k);
    Parse32(EncVarint(TWO64 - k), TWO32 - k, t);
  }

  lemma SignTailGroups()
    ensures Pow2(35) * Groups(SIGN_TAIL) == 0x8_0000_0000 * 0x1FFF_FFFF
  {
    PowersOfSeven();
    assert Groups(SIGN_TAIL) == 0x1FFF_FFFF;
  }

  lemma SignTailSum(g: nat, k: nat)
    requires g + 0x8_0000_0000 * 0x1FFF_FFFF == TWO64 - k && 1 <= k <= TWO31
    ensures U32(g) == TWO32 - k
  {
    U32Add(7, TWO32 - k);
    U32Small(TWO32 - k);
  }

  lemma SignTailValue(g: nat, k: nat)
    requires g + Pow2(35) * Groups(SIGN_TAIL) == TWO64 - k && 1 <= k <= TWO31
    ensures U32(g) == TWO32 - k
  {
    SignTailGroups();
    SignTailSum(g, k);
  }

  lemma NegativeWord(bs: seq<Byte>, k: nat)
    requires 1 <= k <= TWO31 && |bs| == 10 && bs[5..] == SIGN_TAIL && Groups(bs) == TWO64 - k
    ensures Word32(bs) == Word(TWO32 - k)
  {
    hide Groups, Loop32, Pow2, U32;
    var head := bs[..5];
    assert bs == head + SIGN_TAIL;
    GroupsAppend(head, SIGN_TAIL);
    SignTailValue(Groups(head), k);
    FiveBytes(bs[0], bs[1..5], SIGN_TAIL);
    assert head == [bs[0]] + bs[1..5];
    Word32Unfold(bs, bs[0], bs[1..5] + SIGN_TAIL);
    SignTail(TWO32 - k);
  }

  lemma FiveBytes(b: Byte, q: seq<Byte>, tail: seq<Byte>)
    requires |q| == 4 && tail != []
    ensures Loop32(q + tail, 7, Low(b)) == Loop32(tail, 35, U32(Groups([b] + q)))
  {
    GroupsOne(b);
    U32Small(Low(b));
    HeadThenTail([b], q, tail);
  }

  lemma Word32Unfold(s: seq<Byte>, b: Byte, q: seq<Byte>)
    requires |s| > 1 && s[0] == b && s[1..] == q
    ensures Word32(s) == Loop32(q, 7, Low(b))
  {
  }

  // ---------------------------------------------------------- long varints

  /** Byte `k` of a varint, counted from zero and beyond the fifth, may carry no bits of
      its own; behind a word whose top bit is set it may instead repeat the sign, as
      in the ten bytes of a negative number. */
  predicate Redundant(word: nat, bs: seq<Byte>, k: nat)
    requires k < |bs|
  {
    bs[k] % 128 == 0 || (word >= 0x8000_0000 && bs[k] == if k < 9 then 0xFF else 0x01)
  }

  lemma LongStep(word: nat, k: nat, b: Byte)
    requires word < 0x1_0000_0000 && 5 <= k
    ensures Accumulate32(word, 7 * k, b) ==
            if b % 128 == 0 || (word >= 0x8000_0000 && b == if k < 9 then 0xFF else 0x01) then Word(word) else Overflow
  {
  }

  /** The loop behind the fifth byte keeps the word, or fails at the first byte that is
      not redundant. */
  lemma {:induction false} LongTail(bs: seq<Byte>, k: nat, word: nat)
    requires 5 <= k < |bs| <= 37 && word < 0x1_0000_0000
    ensures Loop32(bs[k..], 7 * k, word) ==
            if forall i :: k <= i < |bs| ==> Redundant(word, bs, i) then Word(word) else Overflow
    decreases |bs| - k
  {
    hide Accumulate32;
    LongStep(word, k, bs[k]);
    assert bs[k..][0] == bs[k] && bs[k..][1..] == bs[k + 1..];
    assert Redundant(word, bs, k) <==> Accumulate32(word, 7 * k, bs[k]).Word?;
    if k + 1 < |bs| {
      LongTail(bs, k + 1, word);
      assert (7 * k + 7) % 256 == 7 * (k + 1);
    }
  }

  /** A varint of six bytes or more is accepted exactly when every byte from the sixth on
      is redundant; the word is then that of the first five. Up to 37 bytes, where
      the eight-bit bit position of the decoder comes round again. */
  lemma LongVarint32(bs: seq<Byte>)
    requires 6 <= |bs| <= 37
    ensures var word := Groups(bs[..5]) % 0x1_0000_0000;
            Word32(bs) == if forall k :: 5 <= k < |bs| ==> Redundant(word, bs, k) then Word(word) else Overflow
  {
    hide Groups, Loop32, Redundant;
    var tail := bs[5..];
    assert bs == bs[..5] + tail;
    FiveBytes(bs[0], bs[1..5], tail);
    assert bs[..5] == [bs[0]] + bs[1..5];
    Word32Unfold(bs, bs[0], bs[1..5] + tail);
    LongTail(bs, 5, Groups(bs[..5]) % 0x1_0000_0000);
  }

  /** `pb_decode_varint32` on a long varint at the head of a stream. */
  lemma LongVarintExactly(s: seq<Byte>)
    requires 6 <= VarLen(s) <= 37
    ensures var bs := s[..VarLen(s)];
            var word := Groups(bs[..5]) % 0x1_0000_0000;
            Varint32(s) ==
            if forall k :: 5 <= k < |bs| ==> Redundant(word, bs, k) then Got(word, s[VarLen(s)..]) else Fail
  {
    hide Groups, Redundant, Word32;
    LongVarint32(s[..VarLen(s)]);
  }

  /** Byte `k` of the encoding holds bits 7k to 7k + 6 of the value, and its top bit says
      that more bytes follow. */
  lemma {:induction false} EncVarintByte(v: nat, k: nat)
    requires k < |EncVarint(v)|
    ensures EncVarint(v)[k] == v / Pow2(7 * k) % 128 + if k + 1 < |EncVarint(v)| then 128 else 0
    ensures k + 1 == |EncVarint(v)| <==> v / Pow2(7 * k) < 128
    decreases k
  {
    if k == 0 {
      PowZero();
      assert v / 1 == v;
    } else {
      EncVarintByte(v / 128, k - 1);
      SevenMore(k - 1);
      DivDiv(v, 128, Pow2(7 * (k - 1)));
    }
  }
}
