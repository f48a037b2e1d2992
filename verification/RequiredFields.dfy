/** The bitmap of required fields in pb_decode_noinit: two 32-bit words, and the
    test that compares them with masks. */
module RequiredFields {
  import opened Bits
  import Varint
  import opened Descriptor
  import opened FieldIterator
  import D = DecodeSpec

  /** `n` bits of a word: bit `k` says whether `base + k` is in the set. */
  function Word(seen: set<nat>, base: nat, n: nat): (w: nat)
    ensures w < Pow2(n)
    decreases n, seen
  {
    if n == 0 then 0 else (if base in seen then 1 else 0) + 2 * Word(seen, base + 1, n - 1)
  }

  lemma {:induction false} WordIgnores(seen: set<nat>, base: nat, n: nat, x: nat)
    requires x < base || base + n <= x
    ensures Word(seen + {x}, base, n) == Word(seen, base, n)
    decreases n
  {
    if n == 0 {
    } else {
      WordIgnores(seen, base + 1, n - 1, x);
    }
  }

  lemma BitOrOne(low: nat, w: nat)
    requires low < 2
    ensures BitOr(low + 2 * w, 1) == 1 + 2 * w
  {
    assert BitOr(w, 0) == w;
  }

  lemma BitOrHigh(low: nat, w: nat, h: nat)
    requires low < 2
    ensures BitOr(low + 2 * w, 2 * h) == low + 2 * BitOr(w, h)
  {
    OrUnfold(low + 2 * w, h);
  }

  /** Setting bit `k` adds `base + k` to the set. */
  lemma {:induction false} SetBit(seen: set<nat>, base: nat, n: nat, k: nat)
    requires k < n
    ensures BitOr(Word(seen, base, n), Pow2(k)) == Word(seen + {base + k}, base, n)
    decreases n
  {
    hide BitOr;
    var low, w := if base in seen then 1 else 0, Word(seen, base + 1, n - 1);
    if k == 0 {
      WordIgnores(seen, base + 1, n - 1, base);
      BitOrOne(low, w);
    } else {
      SetBit(seen, base + 1, n - 1, k - 1);
      BitOrHigh(low, w, Pow2(k - 1));
    }
  }

  /** The bits below `r` are set and those from `r` on are not. */
  ghost predicate Exactly(seen: set<nat>, base: nat, n: nat, r: nat) {
    forall x {:trigger x in seen} :: base <= x < base + n ==> (x in seen <==> x < base + r)
  }

  lemma {:induction false} WordIsMask(seen: set<nat>, base: nat, n: nat, r: nat)
    requires r <= n
    ensures Word(seen, base, n) == Pow2(r) - 1 <==> Exactly(seen, base, n, r)
    decreases n
  {
    if n == 0 {
    } else {
      WordIsMask(seen, base + 1, n - 1, if r > 0 then r - 1 else 0);
      MaskStep(seen, base, n, r);
    }
  }

  lemma MaskStep(seen: set<nat>, base: nat, n: nat, r: nat)
    requires 0 < n && r <= n
    ensures Exactly(seen, base, n, r) <==>
            (base in seen <==> r > 0) && Exactly(seen, base + 1, n - 1, if r > 0 then r - 1 else 0)
  {
    if (base in seen <==> r > 0) && Exactly(seen, base + 1, n - 1, if r > 0 then r - 1 else 0) {
      forall x | base <= x < base + n ensures x in seen <==> x < base + r {
        if x == base {
        } else {
          assert base + 1 <= x;
        }
      }
    }
    assert Exactly(seen, base, n, r) ==> (base in seen <==> base < base + r);
  }

  const ALLBITS: nat := 0xFFFF_FFFF

  lemma ShiftedOnes(p: nat, q: nat)
    requires p >= 1 && q >= 1 && p * q == TWO32
    ensures ALLBITS / q == p - 1
  {
    assert q * (p - 1) == p * q - q;
    DivUnique(ALLBITS, q, p - 1, q - 1);
  }

  lemma PowersOfWord(r: nat)
    requires r <= 32
    ensures Pow2(r) * Pow2(32 - r) == TWO32
  {
    Varint.PowersOfSeven();
    Pow2Add(28, 4);
    assert Pow2(4) == 16;
    Pow2Add(r, 32 - r);
  }

  /** `allbits >> (32 - r)`. */
  lemma AllBitsShifted(r: nat)
    requires 1 <= r <= 32
    ensures ALLBITS / Pow2(32 - r) == Pow2(r) - 1
  {
    PowersOfWord(r);
    ShiftedOnes(Pow2(r), Pow2(32 - r));
  }

  /** What the decoder may have put in the set. */
  predicate Tracked(fs: seq<Field>, seen: set<nat>) {
    forall k :: k in seen ==> k < RequiredBefore(fs, |fs|) && k < MAX_REQUIRED_FIELDS
  }

  /** How many required fields the bitmap can tell apart. */
  function TrackedCount(fs: seq<Field>): (n: nat)
    ensures n <= MAX_REQUIRED_FIELDS
  {
    if RequiredBefore(fs, |fs|) < MAX_REQUIRED_FIELDS then RequiredBefore(fs, |fs|) else MAX_REQUIRED_FIELDS
  }

  lemma {:induction false} RequiredMonotone(fs: seq<Field>, i: nat, j: nat)
    requires i <= j <= |fs|
    ensures RequiredBefore(fs, i) <= RequiredBefore(fs, j)
    decreases j
  {
    if i >= j {
    } else {
      RequiredMonotone(fs, i, j - 1);
    }
  }

  /** A required field sets a tracked bit. */
  lemma SeenIsTracked(fs: seq<Field>, i: nat, seen: set<nat>)
    requires i < |fs| && Tracked(fs, seen)
    ensures Tracked(fs, seen + D.Seen(fs, i))
  {
    RequiredMonotone(fs, i + 1, |fs|);
  }

  /** The words hold the set. */
  ghost predicate Holds(words: seq<nat>, seen: set<nat>) {
    |words| == 2 && words[0] == Word(seen, 0, 32) && words[1] == Word(seen, 32, 32)
  }

  lemma HalfWord(p: nat, q: nat)
    requires p >= 1 && q >= 1 && (2 * p) * q == TWO32
    ensures p < TWO32
  {
    MulLe(2 * p, 1, q);
  }

  lemma PowerBelow(k: nat)
    requires k < 32
    ensures U32(1 * Pow2(k)) == Pow2(k)
  {
    PowersOfWord(k + 1);
    HalfWord(Pow2(k), Pow2(31 - k));
    U32Small(Pow2(k));
  }

  lemma SmallPower(k: nat)
    requires k < 32
    ensures Shl32(1, k) == Pow2(k)
  {
    PowerBelow(k);
    Shl32Value(1, k);
  }

  lemma {:induction false} NoBits(base: nat, n: nat)
    ensures Word({}, base, n) == 0
    decreases n
  {
    if n == 0 {
    } else {
      NoBits(base + 1, n - 1);
    }
  }

  /** Setting a bit in one word leaves the other alone. */
  lemma MarkWord(seen: set<nat>, k: nat)
    requires k < 32
    ensures BitOr(Word(seen, 0, 32), Shl32(1, k)) == Word(seen + {k}, 0, 32)
    ensures Word(seen + {k}, 32, 32) == Word(seen, 32, 32)
    ensures BitOr(Word(seen, 32, 32), Shl32(1, k)) == Word(seen + {32 + k}, 32, 32)
    ensures Word(seen + {32 + k}, 0, 32) == Word(seen, 0, 32)
  {
    SmallPower(k);
    SetBit(seen, 0, 32, k);
    SetBit(seen, 32, 32, k);
    WordIgnores(seen, 32, 32, k);
    WordIgnores(seen, 0, 32, 32 + k);
  }

  /** `fields_seen[index >> 5] |= 1 << (index & 31)`. */
  method MarkSeen(fieldsSeen: array<nat>, index: nat, ghost seen: set<nat>)
    requires Holds(fieldsSeen[..], seen) && index < MAX_REQUIRED_FIELDS
    modifies fieldsSeen
    ensures Holds(fieldsSeen[..], seen + {index})
  {
    var word, bit := index / 32, index % 32;
    MarkWord(seen, bit);
    assert index == 32 * word + bit && (word == 0 || word == 1);
    fieldsSeen[word] := BitOr(fieldsSeen[word], Shl32(1, bit));
  }

  /** The first `n` required fields are there. */
  ghost predicate SeenBelow(seen: set<nat>, n: nat) {
    forall k {:trigger k in seen} :: 0 <= k < n ==> k in seen
  }

  /** A full word. */
  lemma FullWord(seen: set<nat>, base: nat)
    requires SeenBelow(seen, base)
    ensures Word(seen, base, 32) == ALLBITS <==> SeenBelow(seen, base + 32)
  {
    PowersOfWord(32);
    WordIsMask(seen, base, 32, 32);
    if Exactly(seen, base, 32, 32) {
      forall k | 0 <= k < base + 32 ensures k in seen {
        assert k < base ==> k in seen;
      }
    }
  }

  /** A word of which `r` bits are used. */
  lemma PartWord(seen: set<nat>, base: nat, r: nat)
    requires 1 <= r < 32 && SeenBelow(seen, base)
    requires forall x :: x in seen ==> x < base + r
    ensures Word(seen, base, 32) == ALLBITS / Pow2(32 - r) <==> SeenBelow(seen, base + r)
  {
    AllBitsShifted(r);
    WordIsMask(seen, base, 32, r);
    if Exactly(seen, base, 32, r) {
      forall k | 0 <= k < base + r ensures k in seen {
        assert k < base ==> k in seen;
      }
    }
  }

  /** The two loops over the words: the test passes exactly when every required
      field that has a bit was seen. */
  method AllSeen(fieldsSeen: array<nat>, count: nat, ghost seen: set<nat>) returns (ok: bool)
    requires Holds(fieldsSeen[..], seen) && count <= MAX_REQUIRED_FIELDS
    requires count > 0 ==> forall k :: k in seen ==> k < count
    ensures ok <==> SeenBelow(seen, count)
  {
    var words, bits := count / 32, count % 32;
    assert count == 32 * words + bits;
    var i := 0;
    while i < words
      invariant 0 <= i <= words && SeenBelow(seen, 32 * i)
    {
      FullWord(seen, 32 * i);
      assert fieldsSeen[i] == Word(seen, 32 * i, 32);
      if fieldsSeen[i] != ALLBITS {
        return false;
      }
      i := i + 1;
    }
    if bits != 0 {
      PartWord(seen, 32 * words, bits);
      assert fieldsSeen[words] == Word(seen, 32 * words, 32);
      if fieldsSeen[words] != ALLBITS / Pow2(32 - bits) {
        return false;
      }
    }
    ok := true;
  }

  /** The number of required fields, found by running to the end of the table from
      wherever the iterator stands. */
  method CountRequired(iter: FieldIter) returns (count: nat)
    requires iter.Valid() && forall i :: 0 <= i < |iter.start| ==> iter.start[i].tag != 0
    modifies iter
    ensures iter.Valid() && count == TrackedCount(iter.start)
  {
    var lastRequired;
    while true
      invariant iter.Valid()
      decreases |iter.start| - iter.pos
    {
      count := iter.requiredIndex;
      lastRequired := FieldAt(iter.start, iter.pos).htype.Required?;
      var more := iter.Next();
      if !more {
        break;
      }
    }
    if lastRequired && FieldAt(iter.start, iter.pos).tag != 0 {
      count := count + 1;
    }
    if count > MAX_REQUIRED_FIELDS {
      count := MAX_REQUIRED_FIELDS;
    }
  }

  /** The check at the end of `pb_decode_noinit` is exact, for any number of
      required fields and wherever the iterator was left. */
  method RequiredPresent(iter: FieldIter, fieldsSeen: array<nat>, ghost seen: set<nat>) returns (ok: bool)
    requires iter.Valid() && forall i :: 0 <= i < |iter.start| ==> iter.start[i].tag != 0
    requires Holds(fieldsSeen[..], seen) && (iter.start != [] ==> Tracked(iter.start, seen))
    modifies iter
    ensures iter.Valid() && (ok <==> D.RequiredSeen(iter.start, seen))
  {
    var count := CountRequired(iter);
    ok := AllSeen(fieldsSeen, count, seen);
  }
}
