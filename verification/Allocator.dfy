/** pb_realloc and pb_free as an account of live blocks. The contents of a block
    sit in the one slot that points at it (`Block(id, cells)`); the account says
    which ids are allocated. Whether a request is granted is up to the
    environment. */
module Allocator {
  import Bits
  import opened Descriptor

  /** `fault` records a free or a realloc of something that is not a live block, `bytes`
      how many bytes each block was granted. */
  datatype Heap = Heap(live: set<nat>, next: nat, grant: (nat, nat) -> bool, fault: bool, bytes: map<nat, nat>)

  /** Every request is granted. */
  ghost predicate Generous(h: Heap) {
    forall id, bytes {:trigger h.grant(id, bytes)} :: h.grant(id, bytes)
  }

  datatype AllocOut = AllocOut(ok: bool, slot: Slot, heap: Heap)

  function Resize(cells: seq<Slot>, n: nat): (r: seq<Slot>)
    ensures |r| == n
    ensures forall k :: 0 <= k < n && k < |cells| ==> r[k] == cells[k]
  {
    seq(n, k requires 0 <= k < n => if k < |cells| then cells[k] else Undef)
  }

  /** `realloc`: on success the block moves to a fresh id and keeps its contents. */
  function Realloc(h: Heap, was: Slot, n: nat, bytes: nat): AllocOut {
    if !h.grant(h.next, bytes) then AllocOut(false, was, h.(next := h.next + 1))
    else
      var gone := if was.Block? then {was.id} else {};
      var bad := !was.Nil? && !(was.Block? && was.id in h.live);
      AllocOut(true, Block(h.next, Resize(Items(was), n)),
               h.(live := h.live - gone + {h.next}, next := h.next + 1, fault := h.fault || bad,
                  bytes := h.bytes[h.next := bytes]))
  }

  function Free(h: Heap, was: Slot): Heap {
    match was
    case Nil => h
    case Block(id, _) => h.(live := h.live - {id}, fault := h.fault || id !in h.live)
    case _ => h.(fault := true)
  }

  /** The half-width test of `allocate_field` with its division, for words of
      `limit` * `limit` values: the request is refused. */
  predicate RejectsSize(dataSize: nat, arraySize: nat, limit: nat)
    requires limit > 0 && arraySize > 0
  {
    (dataSize >= limit || arraySize >= limit) && (limit * limit - 1) / arraySize < dataSize
  }

  /** The shortcut is exact: the request is refused iff the product does not fit
      in a size_t. */
  lemma RejectsExactlyOverflow(dataSize: nat, arraySize: nat, limit: nat)
    requires limit > 0 && dataSize > 0 && arraySize > 0
    ensures RejectsSize(dataSize, arraySize, limit) <==> dataSize * arraySize > limit * limit - 1
  {
    var max := limit * limit - 1;
    if dataSize < limit && arraySize < limit {
      ProductBelow(dataSize, arraySize, limit);
    } else {
      QuotientBelow(max, arraySize, dataSize);
    }
  }

  lemma ProductBelow(a: nat, b: nat, limit: nat)
    requires a < limit && b < limit
    ensures a * b <= limit * limit - 1
  {
    var top := limit - 1;
    Bits.MulLe(b, a, top);
    Bits.MulLe(top, b, top);
    assert limit * limit == top * top + 2 * top + 1;
  }

  lemma QuotientBelow(max: nat, d: nat, q: nat)
    requires d > 0
    ensures max / d < q <==> q * d > max
  {
    var k, r := max / d, max % d;
    assert max == d * k + r;
    if k < q {
      assert q * d >= (k + 1) * d == d * k + d;
    } else {
      assert q * d <= k * d;
    }
  }

  /** `allocate_field` on a 64-bit size_t. */
  function AllocateField(h: Heap, was: Slot, dataSize: nat, arraySize: nat): AllocOut {
    if dataSize == 0 || arraySize == 0 then AllocOut(false, was, h)
    else if RejectsSize(dataSize, arraySize, 0x1_0000_0000) then AllocOut(false, was, h)
    else Realloc(h, was, arraySize, arraySize * dataSize)
  }

  /** What free and realloc may be given. */
  predicate Releasable(h: Heap, was: Slot) {
    was.Nil? || (was.Block? && was.id in h.live)
  }

  /** Exactly the requests for a positive number of bytes that fits in a size_t, and that
      the environment grants, are served. The block then has room for `n` entries of
      `dataSize` bytes, keeps those it had and replaces the old one, which must be one that
      realloc may be given. A refusal leaves everything as it was. */
  lemma AllocateExactly(h: Heap, was: Slot, dataSize: nat, n: nat)
    ensures var a := AllocateField(h, was, dataSize, n);
            && (a.ok <==>
                (dataSize > 0 && n > 0 && dataSize * n <= 0xFFFF_FFFF_FFFF_FFFF && h.grant(h.next, dataSize * n)))
            && (a.ok ==>
                  && a.slot.Block? && a.slot.id == h.next && |a.slot.cells| == n
                  && a.heap.bytes == h.bytes[h.next := dataSize * n]
                  && (forall k :: 0 <= k < n ==> a.slot.cells[k] == if k < |Items(was)| then Items(was)[k] else Undef)
                  && a.heap.live == h.live - (if was.Block? then {was.id} else {}) + {h.next}
                  && (a.heap.fault <==> h.fault || !Releasable(h, was)))
            && (!a.ok ==> a.slot == was && (a.heap.bytes, a.heap.live, a.heap.fault) == (h.bytes, h.live, h.fault))
            && a.heap.next == h.next + (if dataSize > 0 && n > 0 && dataSize * n <= 0xFFFF_FFFF_FFFF_FFFF then 1 else 0)
  {
    hide RejectsSize;
    if dataSize > 0 && n > 0 {
      RejectsExactlyOverflow(dataSize, n, 0x1_0000_0000);
    }
  }
}
