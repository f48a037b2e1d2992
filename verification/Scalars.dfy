/** Encoding and decoding of one scalar item: the pb_enc_* and pb_dec_* functions
    of the packable types, with their width casts. */
module Scalars {
  import opened Bits
  import opened Varint
  import opened Descriptor

  /** What an encoder has emitted, and whether it succeeded. */
  datatype Emit = Emit(ok: bool, out: seq<Byte>)

  /** What a decoder leaves at its destination. */
  datatype ItemOut = ItemOut(ok: bool, rest: seq<Byte>, slot: Slot)

  // ------------------------------------------------------------------ casts

  /** Conversion to a signed integer of 1, 2, 4 or 8 bytes. */
  function SignedCast(x: int, width: nat): int {
    match width
    case 1 => if x % 0x100 < 0x80 then x % 0x100 else x % 0x100 - 0x100
    case 2 => if x % 0x1_0000 < 0x8000 then x % 0x1_0000 else x % 0x1_0000 - 0x1_0000
    case 4 => if U32(x) < TWO31 then U32(x) else U32(x) - TWO32
    case _ => if U64(x) < TWO63 then U64(x) else U64(x) - TWO64
  }

  function UnsignedCast(x: int, width: nat): nat {
    match width
    case 1 => x % 0x100
    case 2 => x % 0x1_0000
    case 4 => U32(x)
    case _ => U64(x)
  }

  predicate FitsSigned(x: int, width: nat) {
    match width
    case 1 => -0x80 <= x < 0x80
    case 2 => -0x8000 <= x < 0x8000
    case 4 => -TWO31 <= x < TWO31
    case _ => -TWO63 <= x < TWO63
  }

  predicate FitsUnsigned(x: int, width: nat) {
    match width
    case 1 => 0 <= x < 0x100
    case 2 => 0 <= x < 0x1_0000
    case 4 => 0 <= x < TWO32
    case _ => 0 <= x < TWO64
  }

  /** A cast is the identity exactly on the values of the target type. */
  lemma SignedCastExact(x: int, width: nat)
    ensures SignedCast(x, width) == x <==> FitsSigned(x, width)
    ensures FitsSigned(SignedCast(x, width), width)
  {
    hide U32, U64;
    if width == 4 {
      WordCast(x);
    } else if width != 1 && width != 2 {
      DoubleWordCast(x);
    }
  }

  lemma WordCast(x: int)
    ensures (if U32(x) < TWO31 then U32(x) else U32(x) - TWO32) == x <==> -TWO31 <= x < TWO31
    ensures 0 <= U32(x) < TWO32
  {
  }

  lemma DoubleWordCast(x: int)
    ensures (if U64(x) < TWO63 then U64(x) else U64(x) - TWO64) == x <==> -TWO63 <= x < TWO63
    ensures 0 <= U64(x) < TWO64
  {
  }

  lemma UnsignedCastExact(x: int, width: nat)
    ensures UnsignedCast(x, width) == x <==> FitsUnsigned(x, width)
    ensures FitsUnsigned(UnsignedCast(x, width), width)
  {
  }

  // ----------------------------------------------------------------- zigzag

  /** `pb_encode_svarint`: shift left, and complement when negative. */
  function ZigZag(x: int): nat {
    if x < 0 then TWO64 - 1 - U64(2 * U64(x)) else U64(2 * U64(x))
  }

  /** `pb_decode_svarint`. */
  function UnZigZag(v: nat): int {
    if v % 2 == 1 then SignedCast(TWO64 - 1 - v / 2, 8) else SignedCast(v / 2, 8)
  }

  /** Zigzag is a bijection between int64 and uint64. */
  lemma ZigZagBijection(x: int, v: nat)
    ensures FitsSigned(x, 8) ==> ZigZag(x) < TWO64 && UnZigZag(ZigZag(x)) == x
    ensures v < TWO64 ==> FitsSigned(UnZigZag(v), 8) && ZigZag(UnZigZag(v)) == v
  {
    ZigZagValue(x);
    UnZigZagValue(v);
    if v < TWO64 {
      ZigZagValue(UnZigZag(v));
    }
    if FitsSigned(x, 8) {
      UnZigZagValue(ZigZag(x));
    }
  }

  lemma ZigZagValue(x: int)
    ensures FitsSigned(x, 8) ==> ZigZag(x) == if x < 0 then -2 * x - 1 else 2 * x
  {
  }

  lemma UnZigZagValue(v: nat)
    ensures v < TWO64 ==> UnZigZag(v) == if v % 2 == 1 then -(v / 2) - 1 else v / 2
  {
  }

  // ------------------------------------------------------------ fixed width

  function EncFixed32(v: nat): (r: seq<Byte>)
    ensures |r| == 4
  {
    [v % 256, v / 0x100 % 256, v / 0x1_0000 % 256, v / 0x100_0000 % 256]
  }

  function EncFixed64(v: nat): (r: seq<Byte>)
    ensures |r| == 8
  {
    EncFixed32(v % 0x1_0000_0000) + EncFixed32(v / 0x1_0000_0000)
  }

  function DecFixed32(b: seq<Byte>): nat
    requires |b| == 4
  {
    (b[0] as int) + 0x100 * (b[1] as int) + 0x1_0000 * (b[2] as int) + 0x100_0000 * (b[3] as int)
  }

  function DecFixed64(b: seq<Byte>): nat
    requires |b| == 8
  {
    DecFixed32(b[..4]) + 0x1_0000_0000 * DecFixed32(b[4..])
  }

  lemma Fixed32RoundTrip(v: nat)
    requires v < TWO32
    ensures DecFixed32(EncFixed32(v)) == v
  {
    var a := v / 0x100;
    var b := a / 0x100;
    DivDiv(v, 0x100, 0x100);
    DivDiv(v, 0x1_0000, 0x100);
    assert b / 0x100 < 256;
  }

  lemma Fixed64RoundTrip(v: nat)
    requires v < TWO64
    ensures DecFixed64(EncFixed64(v)) == v
  {
    var lo, hi := v % 0x1_0000_0000, v / 0x1_0000_0000;
    Fixed32RoundTrip(lo);
    Fixed32RoundTrip(hi);
    assert EncFixed64(v)[..4] == EncFixed32(lo) && EncFixed64(v)[4..] == EncFixed32(hi);
  }

  // ------------------------------------------------------------ scalar items

  predicate IntWidth(w: nat) {
    w == 1 || w == 2 || w == 4 || w == 8
  }

  /** The encoder of a packable type applied to the item stored in `x`. */
  function EncScalar(f: Field, x: Slot): Emit {
    match f.ltype
    case Bool => Emit(true, EncVarint(if Number(x) != 0 then 1 else 0))
    case VarInt => if IntWidth(f.dataSize) then Emit(true, EncVarint(U64(Number(x)))) else Emit(false, [])
    case UVarInt => if IntWidth(f.dataSize) then Emit(true, EncVarint(U64(Number(x)))) else Emit(false, [])
    case SVarInt => if IntWidth(f.dataSize) then Emit(true, EncVarint(ZigZag(Number(x)))) else Emit(false, [])
    case Fixed32 => Emit(true, EncFixed32(U32(Number(x))))
    case Fixed64 => Emit(true, EncFixed64(U64(Number(x))))
    case _ => Emit(false, [])
  }

  /** A decoded integer stored through a cast to the field's width: the store
      happens, then a changed value is an error. */
  function Narrow(s: seq<Byte>, rest: seq<Byte>, was: Slot, value: int, cast: int, width: nat): ItemOut {
    if !IntWidth(width) then ItemOut(false, s, was)
    else ItemOut(cast == value, if cast == value then rest else s, Num(cast))
  }

  /** The decoder of a packable type. */
  function DecScalar(f: Field, s: seq<Byte>, was: Slot): (r: ItemOut)
    ensures r.ok ==> |r.rest| < |s|
  {
    match f.ltype
    case Bool =>
      (match Varint32(s)
       case Fail => ItemOut(false, s, was)
       case Got(v, rest) => ItemOut(true, rest, Num(if v != 0 then 1 else 0)))
    case VarInt =>
      (match Varint64(s)
       case Fail => ItemOut(false, s, was)
       case Got(v, rest) =>
         var value := SignedCast(v, if f.dataSize == 8 then 8 else 4);
         Narrow(s, rest, was, value, SignedCast(value, f.dataSize), f.dataSize))
    case UVarInt =>
      (match Varint64(s)
       case Fail => ItemOut(false, s, was)
       case Got(v, rest) => Narrow(s, rest, was, v, UnsignedCast(v, f.dataSize), f.dataSize))
    case SVarInt =>
      (match Varint64(s)
       case Fail => ItemOut(false, s, was)
       case Got(v, rest) => Narrow(s, rest, was, UnZigZag(v), SignedCast(UnZigZag(v), f.dataSize), f.dataSize))
    case Fixed32 => if |s| < 4 then ItemOut(false, s, was) else ItemOut(true, s[4..], Num(DecFixed32(s[..4])))
    case Fixed64 => if |s| < 8 then ItemOut(false, s, was) else ItemOut(true, s[8..], Num(DecFixed64(s[..8])))
    case _ => ItemOut(false, s, was)
  }

  /** The values a scalar member of the field's C type can hold. */
  predicate InRange(f: Field, n: int) {
    match f.ltype
    case Bool => n == 0 || n == 1
    case VarInt => FitsSigned(n, f.dataSize)
    case UVarInt => FitsUnsigned(n, f.dataSize)
    case SVarInt => FitsSigned(n, f.dataSize)
    case Fixed32 => 0 <= n < TWO32
    case Fixed64 => 0 <= n < TWO64
    case _ => false
  }

  /** What was stored before has no influence on a scalar decoder that succeeds. */
  lemma SameScalar(f: Field, s: seq<Byte>, a: Slot, b: Slot)
    ensures var d, e := DecScalar(f, s, a), DecScalar(f, s, b);
            d.ok == e.ok && d.rest == e.rest && (d.ok ==> d.slot == e.slot)
  {
    hide Varint32, Varint64;
  }

  /** Success of a scalar decoder on a prefix is success on the whole. */
  lemma ScalarLocal(f: Field, s: seq<Byte>, t: seq<Byte>, was: Slot)
    requires DecScalar(f, s, was).ok
    ensures DecScalar(f, s + t, was) == DecScalar(f, s, was).(rest := DecScalar(f, s, was).rest + t)
  {
    hide Varint32, Varint64, SignedCast, UnsignedCast, UnZigZag;
    if f.ltype.Fixed32? || f.ltype.Fixed64? {
      FixedLocal(f, s, t, was);
    } else {
      VarintLocal(s, t);
    }
  }

  lemma FixedLocal(f: Field, s: seq<Byte>, t: seq<Byte>, was: Slot)
    requires DecScalar(f, s, was).ok && (f.ltype.Fixed32? || f.ltype.Fixed64?)
    ensures DecScalar(f, s + t, was) == DecScalar(f, s, was).(rest := DecScalar(f, s, was).rest + t)
  {
    var n := if f.ltype.Fixed32? then 4 else 8;
    assert (s + t)[..n] == s[..n] && (s + t)[n..] == s[n..] + t;
  }

  lemma SignedRoundTrip(n: int, width: nat)
    requires IntWidth(width) && FitsSigned(n, width)
    ensures SignedCast(U64(n), if width == 8 then 8 else 4) == n
    ensures FitsSigned(n, 8)
  {
  }

  lemma FixedRoundTrip(f: Field, n: int, t: seq<Byte>, was: Slot)
    requires (f.ltype.Fixed32? || f.ltype.Fixed64?) && InRange(f, n)
    ensures DecScalar(f, EncScalar(f, Num(n)).out + t, was) == ItemOut(true, t, Num(n))
  {
    U32Small(n);
    var e := EncScalar(f, Num(n)).out;
    assert (e + t)[..|e|] == e && (e + t)[|e|..] == t;
    if f.ltype.Fixed32? {
      Fixed32RoundTrip(n);
    } else {
      Fixed64RoundTrip(n);
    }
  }

  lemma IntRoundTrip(f: Field, n: int, t: seq<Byte>, was: Slot)
    requires WfWidth(f) && InRange(f, n) && (f.ltype.VarInt? || f.ltype.SVarInt?)
    ensures EncScalar(f, Num(n)).ok
    ensures DecScalar(f, EncScalar(f, Num(n)).out + t, was) == ItemOut(true, t, Num(n))
  {
    SignedRoundTrip(n, f.dataSize);
    SignedCastExact(n, f.dataSize);
    if f.ltype.VarInt? {
      RoundTrip64(U64(n), t);
    } else {
      ZigZagBijection(n, 0);
      RoundTrip64(ZigZag(n), t);
    }
  }

  /** Every value of every scalar type comes back from its encoding, whatever
      follows it and whatever was stored before. */
  lemma ScalarRoundTrip(f: Field, n: int, t: seq<Byte>, was: Slot)
    requires WfWidth(f) && InRange(f, n)
    ensures EncScalar(f, Num(n)).ok
    ensures DecScalar(f, EncScalar(f, Num(n)).out + t, was) == ItemOut(true, t, Num(n))
  {
    match f.ltype
    case Bool =>
      RoundTrip32(n, t);
    case UVarInt =>
      UnsignedCastExact(n, f.dataSize);
      U32Small(n);
      RoundTrip64(n, t);
    case VarInt =>
      IntRoundTrip(f, n, t, was);
    case SVarInt =>
      IntRoundTrip(f, n, t, was);
    case _ =>
      FixedRoundTrip(f, n, t, was);
  }

  /** The value a varint decoder compares with its cast to the member's width. */
  function VarintValue(f: Field, v: nat): int {
    if f.ltype.UVarInt? then v
    else if f.ltype.SVarInt? then UnZigZag(v)
    else SignedCast(v, if f.dataSize == 8 then 8 else 4)
  }

  /** Unsigned and zigzag fields accept exactly the varints whose value the
      member can hold; a VARINT field first cuts the value to its int32 or int64
      cast, accepts exactly when that fits, and so never fails at 4 or 8 bytes. */
  lemma NarrowingExact(f: Field, s: seq<Byte>, was: Slot)
    requires WfWidth(f) && Varint64(s).Got? && (f.ltype.VarInt? || f.ltype.UVarInt? || f.ltype.SVarInt?)
    ensures DecScalar(f, s, was).ok <==> InRange(f, VarintValue(f, Varint64(s).value))
    ensures DecScalar(f, s, was).ok ==> DecScalar(f, s, was).slot == Num(VarintValue(f, Varint64(s).value))
    ensures f.ltype.VarInt? && f.dataSize >= 4 ==> DecScalar(f, s, was).ok
  {
    var x := VarintValue(f, Varint64(s).value);
    UnsignedCastExact(x, f.dataSize);
    SignedCastExact(x, f.dataSize);
    SignedCastExact(Varint64(s).value, if f.dataSize == 8 then 8 else 4);
  }
}
