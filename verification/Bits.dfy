/** Unsigned machine words as natural numbers. A mask by 2^k - 1 is written as
    `% 2^k`, a right shift as `/ 2^k`, the test of bit 7 of a byte as `>= 128`;
    OR and XOR are spelt out, because the varint loops rely on their operands
    having no bit in common. */
module Bits {

  type Byte = b: int | 0 <= b < 256

  const TWO31: int := 0x8000_0000
  const TWO32: int := 0x1_0000_0000
  const TWO63: int := 0x8000_0000_0000_0000
  const TWO64: int := 0x1_0000_0000_0000_0000

  /** Conversion to uint32_t and uint64_t. */
  function U32(x: int): (r: nat)
    ensures r < TWO32
  {
    x % 0x1_0000_0000
  }

  function U64(x: int): (r: nat)
    ensures r < TWO64
  {
    x % 0x1_0000_0000_0000_0000
  }

  function Pow2(n: nat): (p: nat)
    ensures p >= 1
  {
    if n == 0 then 1 else 2 * Pow2(n - 1)
  }

  function BitOr(a: nat, b: nat): nat
    decreases a + b
  {
    if a == 0 then b else if b == 0 then a
    else (if a % 2 == 1 || b % 2 == 1 then 1 else 0) + 2 * BitOr(a / 2, b / 2)
  }

  function BitXor(a: nat, b: nat): nat
    decreases a + b
  {
    if a == 0 then b else if b == 0 then a
    else (if a % 2 != b % 2 then 1 else 0) + 2 * BitXor(a / 2, b / 2)
  }

  /** `x << k` on a 32-bit word: k doublings, each losing the carry. */
  function Shl32(x: nat, k: nat): (r: nat)
    ensures r < TWO32
    decreases k
  {
    if k == 0 then U32(x) else Shl32(U32(2 * x), k - 1)
  }

  /** The same on a 64-bit word. */
  function Shl64(x: nat, k: nat): (r: nat)
    decreases k
  {
    if k == 0 then U64(x) else Shl64(U64(2 * x), k - 1)
  }

  lemma MulLe(d: nat, a: int, b: int)
    requires a <= b
    ensures d * a <= d * b
  {
  }

  lemma DivUnique(x: int, d: nat, q: int, r: int)
    requires d > 0 && 0 <= r < d && x == d * q + r
    ensures x / d == q && x % d == r
  {
    var q' := x / d;
    assert x == d * q' + x % d;
    MulLe(d, q + 1, if q' > q then q' else q + 1);
    MulLe(d, q' + 1, if q > q' then q else q' + 1);
  }

  lemma ModOfSum(q: int, r: nat, d: nat)
    requires d > 0
    ensures (d * q + r) % d == r % d
  {
    assert d * (q + r / d) == d * q + d * (r / d);
    DivUnique(d * q + r, d, q + r / d, r % d);
  }

  lemma DivDiv(x: nat, a: nat, b: nat)
    requires a > 0 && b > 0
    ensures a * b > 0 && x / a / b == x / (a * b)
  {
    var q, r := x / a / b, x / a % b;
    assert x / a == b * q + r;
    var low := x % a;
    assert x == a * (x / a) + low;
    assert a * (b * q + r) == (a * b) * q + a * r;
    MulLe(a, r + 1, b);
    assert a * (r + 1) == a * r + a;
    DivUnique(x, a * b, q, a * r + low);
  }

  lemma {:induction false} Shl32Value(x: nat, k: nat)
    ensures Shl32(x, k) == U32(x * Pow2(k))
    decreases k
  {
    if k == 0 {
    } else {
      var p := Pow2(k - 1);
      Shl32Value(U32(2 * x), k - 1);
      ShiftCarry(2 * x / 0x1_0000_0000, U32(2 * x), p);
      Twice(x, p);
    }
  }

  lemma {:induction false} Shl64Value(x: nat, k: nat)
    ensures Shl64(x, k) == U64(x * Pow2(k))
    decreases k
  {
    if k == 0 {
    } else {
      var p := Pow2(k - 1);
      Shl64Value(U64(2 * x), k - 1);
      ShiftCarry64(2 * x / 0x1_0000_0000_0000_0000, U64(2 * x), p);
      Twice(x, p);
    }
  }

  lemma ShiftCarry64(c: nat, r: nat, p: nat)
    ensures U64((0x1_0000_0000_0000_0000 * c + r) * p) == U64(r * p)
  {
    assert (0x1_0000_0000_0000_0000 * c + r) * p == 0x1_0000_0000_0000_0000 * (c * p) + r * p;
  }

  lemma U64Add(q: nat, r: nat)
    ensures U64(0x1_0000_0000_0000_0000 * q + r) == U64(r)
  {
  }

  /** Sums of words may be cut at any time. */
  lemma U64Sum(a: nat, b: nat)
    ensures U64(U64(a) + U64(b)) == U64(a + b)
    ensures U64(a) + U64(b) < 2 * TWO64
  {
    U64Add(a / 0x1_0000_0000_0000_0000 + b / 0x1_0000_0000_0000_0000, U64(a) + U64(b));
  }

  lemma U32Add(q: nat, r: nat)
    ensures U32(0x1_0000_0000 * q + r) == U32(r)
  {
  }

  lemma U32Small(x: nat)
    ensures x < TWO32 ==> U32(x) == x
    ensures x < TWO64 ==> U64(x) == x
  {
  }

  lemma ShiftCarry(c: nat, r: nat, p: nat)
    ensures U32((0x1_0000_0000 * c + r) * p) == U32(r * p)
  {
    assert (0x1_0000_0000 * c + r) * p == 0x1_0000_0000 * (c * p) + r * p;
  }

  lemma U32OfU64(g: nat)
    ensures U32(U64(g)) == U32(g)
  {
    assert g == 0x1_0000_0000 * (0x1_0000_0000 * (g / 0x1_0000_0000_0000_0000)) + U64(g);
  }

  lemma {:induction false} Pow2Add(a: nat, b: nat)
    ensures Pow2(a + b) == Pow2(a) * Pow2(b)
  {
    if a == 0 {
    } else {
      Pow2Add(a - 1, b);
      var p, q := Pow2(a - 1), Pow2(b);
      assert 2 * p * q == 2 * (p * q);
    }
  }

  lemma OrUnfold(a: nat, h: nat)
    ensures BitOr(a, 2 * h) == a % 2 + 2 * BitOr(a / 2, h)
    ensures BitXor(a, 2 * h) == a % 2 + 2 * BitXor(a / 2, h)
  {
    assert 2 * h / 2 == h && 2 * h % 2 == 0;
  }

  lemma OrOfHalves(a: nat, h: nat)
    requires BitOr(a / 2, h) == BitXor(a / 2, h) == a / 2 + h
    ensures BitOr(a, 2 * h) == BitXor(a, 2 * h) == a + 2 * h
  {
    OrUnfold(a, h);
  }

  lemma Twice(c: nat, p: nat)
    ensures c * (2 * p) == 2 * (c * p) == 2 * c * p
  {
  }

  /** Two words with no bit in common: OR and XOR are the sum. */
  lemma {:induction false} DisjointOr(a: nat, c: nat, k: nat)
    requires a < Pow2(k)
    ensures BitOr(a, c * Pow2(k)) == BitXor(a, c * Pow2(k)) == a + c * Pow2(k)
  {
    if k == 0 {
    } else {
      DisjointOr(a / 2, c, k - 1);
      Twice(c, Pow2(k - 1));
      OrOfHalves(a, c * Pow2(k - 1));
    }
  }
}
