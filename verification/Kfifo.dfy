/** The kernel FIFO of `src/fifo.c`: a power-of-two ring of fixed-size elements whose 32-bit `in`
    and `out` indices run freely and wrap.

    `Contents` is the abstract value, the bytes of the live elements in order.  Each operation is
    specified on that sequence alone. */
module KfifoCore {
  import opened Machine
  import opened Rings

  type Byte = x: int | 0 <= x < 256

  const EINVAL: int := 22
  const ENOMEM: int := 12
  const EFAULT: int := 14

  /** `memcpy` into a buffer. */
  method Memcpy(dst: array<Byte>, at: nat, src: seq<Byte>)
    requires at + |src| <= dst.Length
    modifies dst
    ensures dst[..] == Splice(old(dst[..]), at, src)
  {
    forall i | 0 <= i < |src| { dst[at + i] := src[i]; }
  }

  // ---------------------------------------------------------------- index arithmetic

  /** `roundup_pow_of_two`. */
  function RoundupPow2(n: nat): nat
    requires n >= 1
  {
    if n == 1 then 1 else Pow2(Log2(n - 1) + 1)
  }

  /** The least power of two that is not below `n`. */
  lemma RoundupLeast(n: nat, k: nat)
    requires n >= 1
    ensures n <= RoundupPow2(n) < 2 * n
    ensures IsPow2(RoundupPow2(n))
    ensures n <= Pow2(k) ==> RoundupPow2(n) <= Pow2(k)
  {
    if n == 1 {
      assert 1 == Pow2(0);
    } else {
      var l := Log2(n - 1);
      NonzeroHasBit(n - 1);
      assert RoundupPow2(n) == Pow2(l + 1);
      if k <= l {
        if k < l { Pow2Monotone(k, l); }
      } else if k > l + 1 {
        Pow2Monotone(l + 1, k);
      }
    }
  }

  /** Position of a free-running index in a ring of `size` slots: whole rounds are taken off. */
  function Residue(idx: nat, size: nat): (r: nat)
    requires size > 0
    ensures r < size
  {
    if idx < size then idx else Residue(idx - size, size)
  }

  lemma {:induction false} ResidueMod(idx: nat, size: nat)
    requires size > 0
    ensures Residue(idx, size) == idx % size
  {
    if idx < size {
      DivUnique(idx, size, 0, idx);
    } else {
      ResidueMod(idx - size, size);
      ModMultiple(idx, size, -1);
    }
  }

  /** `idx & mask` is the slot. */
  lemma MaskedSlot(idx: nat, mask: nat)
    requires IsPow2(mask + 1)
    ensures And(idx, mask) == Residue(idx, mask + 1)
  {
    var order: nat :| mask + 1 == Pow2(order);
    AndMask(idx, order);
    ResidueMod(idx, mask + 1);
  }

  lemma {:induction false} ResidueAdvance(idx: nat, n: nat, size: nat)
    requires size > 0 && n <= size
    ensures Residue(idx + n, size) == Advance(Residue(idx, size), n, size)
    decreases idx
  {
    if idx >= size { ResidueAdvance(idx - size, n, size); }
  }

  /** The 32-bit index, `n` elements further on, is in the slot `n` further round: 2^32 is a whole
      number of rounds. */
  lemma SlotAfter(idx: nat, n: nat, mask: nat)
    requires IsPow2(mask + 1) && mask < U32 / 2 && n <= mask + 1
    ensures Residue(Wrap32(idx + n), mask + 1) == Advance(Residue(idx, mask + 1), n, mask + 1)
  {
    var order: nat :| mask + 1 == Pow2(order);
    OrderSmall(order);
    Wrap32Mod(idx + n, order);
    ResidueMod(Wrap32(idx + n), mask + 1);
    ResidueMod(idx + n, mask + 1);
    ResidueAdvance(idx, n, mask + 1);
  }

  /** The slot `in` points to, seen from `out`. */
  lemma SlotOfIn(inIdx: nat, outIdx: nat, mask: nat)
    requires inIdx < U32 && outIdx < U32 && IsPow2(mask + 1) && mask < U32 / 2
    requires Wrap32(inIdx - outIdx) <= mask + 1
    ensures Residue(inIdx, mask + 1) ==
              Advance(Residue(outIdx, mask + 1), Wrap32(inIdx - outIdx), mask + 1)
  {
    InFromOut(inIdx, outIdx);
    SlotAfter(outIdx, Wrap32(inIdx - outIdx), mask);
  }

  /** Scaling positions by the element size commutes with going round the ring. */
  lemma AdvanceBytes(slot: nat, n: nat, size: nat, e: nat)
    requires slot < size && n <= size && e >= 1
    ensures Bytes(slot, e) < Bytes(size, e) && Bytes(n, e) <= Bytes(size, e)
    ensures Bytes(Advance(slot, n, size), e) == Advance(Bytes(slot, e), Bytes(n, e), Bytes(size, e))
  {
    BytesOrder(size, slot, e);
    BytesOrder(n, size, e);
    BytesAdd(slot, n, e);
    BytesOrder(size, slot + n, e);
    if slot + n >= size { BytesAdd(slot + n - size, size, e); }
  }

  lemma LengthAfter(inIdx: nat, outIdx: nat, n: nat)
    requires inIdx < U32 && outIdx < U32 && Wrap32(inIdx - outIdx) + n < U32
    ensures Wrap32(Wrap32(inIdx + n) - outIdx) == Wrap32(inIdx - outIdx) + n
  {}

  lemma LengthBefore(inIdx: nat, outIdx: nat, n: nat)
    requires inIdx < U32 && outIdx < U32 && n <= Wrap32(inIdx - outIdx)
    ensures Wrap32(inIdx - Wrap32(outIdx + n)) == Wrap32(inIdx - outIdx) - n
  {}

  lemma InFromOut(inIdx: nat, outIdx: nat)
    requires inIdx < U32 && outIdx < U32
    ensures inIdx == Wrap32(outIdx + Wrap32(inIdx - outIdx))
  {}

  // ---------------------------------------------------------------- the ring as a value

  /** `size` elements of `e` bytes that exactly fill a buffer of `total` bytes, with `size` a power
      of two and every byte addressable by a 32-bit offset. */
  ghost predicate Layout(total: nat, size: nat, e: nat) {
    2 <= size <= U32 / 2 && IsPow2(size) && e >= 1 && total == Bytes(size, e) < U32
  }

  /** The bytes of the `c` elements from slot `slot` on. */
  ghost function Live(buf: seq<Byte>, size: nat, e: nat, slot: nat, c: nat): (r: seq<Byte>)
    requires Layout(|buf|, size, e) && slot < size && c <= size
    ensures |r| == Bytes(c, e) <= |buf|
  {
    BytesOrder(c, size, e);
    BytesOrder(size, slot, e);
    Ring(buf, Bytes(slot, e), Bytes(c, e))
  }

  /** Storing behind the live bytes and counting `n` of the stored elements as live appends them. */
  lemma LivePublish(buf: seq<Byte>, size: nat, e: nat, slot: nat, c: nat, src: seq<Byte>, n: nat)
    requires Layout(|buf|, size, e) && slot < size && c + n <= size && Bytes(n, e) <= |src|
    requires |src| <= Bytes(size - c, e)
    ensures |src| <= |buf| && Bytes(Advance(slot, c, size), e) < |buf|
    ensures Live(Poke(buf, Bytes(Advance(slot, c, size), e), src), size, e, slot, c + n) ==
              Live(buf, size, e, slot, c) + src[..Bytes(n, e)]
  {
    hide Ring, Poke, Advance, Bytes;
    BytesAdd(c, n, e);
    BytesAdd(c, size - c, e);
    AdvanceBytes(slot, c, size, e);
    PokeAppends(buf, Bytes(slot, e), Bytes(c, e), src, Bytes(n, e));
  }

  lemma LiveStored(before: seq<Byte>, after: seq<Byte>, size: nat, e: nat,
                   slot: nat, tail: nat, c: nat, src: seq<Byte>, n: nat)
    requires Layout(|before|, size, e) && slot < size && c + n <= size
    requires Bytes(n, e) <= |src| <= Bytes(size - c, e) && |src| <= |before|
    requires tail == Advance(slot, c, size) && Bytes(tail, e) < |before|
    requires after == Poke(before, Bytes(tail, e), src)
    ensures Live(after, size, e, slot, c + n) == Live(before, size, e, slot, c) + src[..Bytes(n, e)]
  {
    LivePublish(before, size, e, slot, c, src, n);
  }

  /** Leaving out the `n` oldest elements removes their bytes from the front. */
  lemma LiveDrop(buf: seq<Byte>, size: nat, e: nat, slot: nat, c: nat, n: nat)
    requires Layout(|buf|, size, e) && slot < size && n <= c <= size
    ensures Bytes(n, e) <= Bytes(c, e)
    ensures Live(buf, size, e, Advance(slot, n, size), c - n) == Live(buf, size, e, slot, c)[Bytes(n, e)..]
  {
    hide Ring, Poke, Advance, Bytes;
    BytesAdd(n, c - n, e);
    BytesOrder(c, size, e);
    AdvanceBytes(slot, n, size, e);
    RingSplit(buf, Bytes(slot, e), Bytes(c, e), Bytes(n, e));
  }

  /** Fetching `n` elements yields the front of the live bytes. */
  lemma LiveFront(buf: seq<Byte>, size: nat, e: nat, slot: nat, c: nat, n: nat)
    requires Layout(|buf|, size, e) && slot < size && n <= c <= size
    ensures Bytes(n, e) <= Bytes(c, e)
    ensures Live(buf, size, e, slot, n) == Live(buf, size, e, slot, c)[..Bytes(n, e)]
  {
    hide Ring, Poke, Advance, Bytes;
    BytesOrder(n, c, e);
    BytesOrder(c, size, e);
    BytesOrder(size, slot, e);
    RingSplit(buf, Bytes(slot, e), Bytes(c, e), Bytes(n, e));
  }

  // ---------------------------------------------------------------- the ring in memory

  class Kfifo {
    var inIdx: nat
    var outIdx: nat
    var mask: nat
    var esize: nat
    var data: array<Byte>   // the empty array stands for a null pointer

    /** Number of live elements, as the unsigned difference of the indices. */
    function Count(): (n: nat)
      reads this
    {
      Wrap32(inIdx - outIdx)
    }

    ghost predicate Valid()
      reads this
    {
      && Layout(data.Length, mask + 1, esize)
      && inIdx < U32 && outIdx < U32 && Count() <= mask + 1
    }

    /** Slot of the element with free-running index `idx`. */
    ghost function Slot(idx: nat): (r: nat)
      reads this
      ensures r <= mask
    {
      Residue(idx, mask + 1)
    }

    /** The bytes of the live elements, oldest first. */
    ghost function Contents(): (c: seq<Byte>)
      requires Valid()
      reads this, data
      ensures |c| == Bytes(Count(), esize) <= data.Length
    {
      Live(data[..], mask + 1, esize, Slot(outIdx), Count())
    }

    // -------------------------------------------------------------- set-up

    constructor ()
      ensures mask == 0 && data.Length == 0 && inIdx == 0 && outIdx == 0 && fresh(data)
    {
      inIdx, outIdx, mask, esize := 0, 0, 0, 0;
      data := new Byte[0];
    }

    /** `__kfifo_alloc`; `memory` says whether the allocator delivers. */
    method Alloc(size: nat, elementSize: nat, memory: bool) returns (rc: int)
      requires 1 <= size <= U32 / 2 && elementSize >= 1
      requires Bytes(RoundupPow2(size), elementSize) < U32
      modifies this
      ensures rc == if size == 1 then -EINVAL else if !memory then -ENOMEM else 0
      ensures rc == 0 <==> Valid()
      ensures rc == 0 ==> Contents() == [] && mask + 1 == RoundupPow2(size)
      ensures rc != 0 ==> mask == 0 && data.Length == 0
      ensures inIdx == 0 && outIdx == 0 && esize == elementSize
      ensures fresh(data)
    {
      RoundupInRange(size);
      var rounded := RoundupPow2(size);
      inIdx, outIdx, esize := 0, 0, elementSize;
      if rounded < 2 {
        data := new Byte[0];
        mask := 0;
        return -EINVAL;
      }
      if !memory {
        data := new Byte[0];
        mask := 0;
        return -ENOMEM;
      }
      data := new Byte[Bytes(rounded, elementSize)](_ => 0);
      mask := rounded - 1;
      rc := 0;
    }

    /** `__kfifo_init` over a caller's buffer of `bytes` bytes.  The element count is rounded up, so
        the ring stays inside the buffer, and fills it, only for a power-of-two count. */
    method Init(buffer: array<Byte>, bytes: nat, elementSize: nat) returns (rc: int)
      requires elementSize >= 1 && buffer.Length == bytes < U32
      requires 1 <= bytes / elementSize <= U32 / 2
      modifies this
      ensures data == buffer && esize == elementSize && inIdx == 0 && outIdx == 0
      ensures mask + 1 == RoundupPow2(bytes / elementSize)
      ensures rc == if bytes / elementSize == 1 then -EINVAL else 0
      ensures rc == 0 ==>
                (Bytes(mask + 1, esize) <= bytes <==> IsPow2(bytes / elementSize))
                && (Valid() <==> IsPow2(bytes / elementSize) && bytes % elementSize == 0)
      ensures rc == 0 && Valid() ==> Contents() == []
    {
      var size := bytes / elementSize;
      RoundupInRange(size);
      RoundupFits(size, elementSize);
      WholeCount(bytes, elementSize, RoundupPow2(size));
      inIdx, outIdx, esize, data := 0, 0, elementSize, buffer;
      var rounded := RoundupPow2(size);
      if rounded < 2 {
        mask := 0;
        return -EINVAL;
      }
      mask := rounded - 1;
      rc := 0;
    }

    // -------------------------------------------------------------- copying

    /** `kfifo_unused`. */
    function Unused(): (n: nat)
      requires Valid()
      reads this
      ensures n == mask + 1 - Count()
    {
      Wrap32(mask + 1 - Count())
    }

    /** A 32-bit multiplication by the element size, for counts that fit the buffer. */
    method Scale(n: nat) returns (r: nat)
      requires Valid() && n <= mask + 1
      ensures r == Bytes(n, esize) <= data.Length
      ensures n <= mask ==> r < data.Length
    {
      BytesOrder(n, mask + 1, esize);
      BytesOrder(mask + 1, n, esize);
      BytesProduct(n, esize);
      r := Wrap32(n * esize);
    }

    /** Where a copy of `len` elements at free-running index `off` starts, how many bytes it has,
        and how many of them fit before the end of the buffer. */
    method Pieces(len: nat, off: nat) returns (at: nat, bytes: nat, l: nat)
      requires Valid() && len <= mask + 1
      ensures at == Bytes(Slot(off), esize) < data.Length
      ensures bytes == Bytes(len, esize) <= data.Length
      ensures l == Min(bytes, data.Length - at)
    {
      hide And, Bytes, Residue;
      MaskedSlot(off, mask);
      at := Scale(And(off, mask));
      var size := Scale(mask + 1);
      bytes := Scale(len);
      l := Min(bytes, Wrap32(size - at));
    }

    /** `kfifo_copy_in`: stores whole elements at free-running index `off`, in two pieces. */
    method CopyIn(src: seq<Byte>, len: nat, off: nat)
      requires Valid() && len <= mask + 1 && |src| == Bytes(len, esize)
      modifies data
      ensures Bytes(Slot(off), esize) < data.Length && |src| <= data.Length
      ensures data[..] == Poke(old(data[..]), Bytes(Slot(off), esize), src)
    {
      var at, bytes, l := Pieces(len, off);
      PokeInPieces(data[..], at, src, l);
      Memcpy(data, at, src[..l]);
      Memcpy(data, 0, src[l..]);
    }

    /** `kfifo_copy_out`: fetches whole elements from free-running index `off`, in two pieces. */
    method CopyOut(dst: array<Byte>, len: nat, off: nat)
      requires Valid() && len <= mask + 1
      requires Bytes(len, esize) <= dst.Length && dst != data
      modifies dst
      ensures dst[..] ==
                Live(data[..], mask + 1, esize, Slot(off), len) + old(dst[..])[Bytes(len, esize)..]
    {
      var at, bytes, l := Pieces(len, off);
      RingInPieces(data[..], at, bytes, l, dst[..]);
      Memcpy(dst, 0, data[at..at + l]);
      Memcpy(dst, l, data[..bytes - l]);
    }

    // -------------------------------------------------------------- elements

    /** `__kfifo_in`. */
    method In(buf: seq<Byte>, len: nat) returns (n: nat)
      requires Valid() && len < U32 && |buf| == Bytes(len, esize)
      modifies this`inIdx, data
      ensures Valid()
      ensures n == Min(len, mask + 1 - old(Count()))
      ensures Bytes(n, esize) <= |buf|
      ensures Contents() == old(Contents()) + buf[..Bytes(n, esize)]
    {
      hide Live, Poke, Bytes, Residue;
      n := Min(len, Unused());
      BytesOrder(n, len, esize);
      BytesOrder(n, Unused(), esize);
      var src := buf[..Bytes(n, esize)];
      CopyIn(src, n, inIdx);
      Publish(old(data[..]), src, n);
    }

    /** `in += n` in 32 bits: `n` more elements are live, whether or not the index wraps. */
    method MoveIn(n: nat)
      requires Valid() && Count() + n <= mask + 1
      modifies this`inIdx
      ensures Valid() && Count() == old(Count()) + n
    {
      hide Wrap32, Bytes;
      LengthAfter(inIdx, outIdx, n);
      inIdx := Wrap32(inIdx + n);
    }

    /** Moves `in` over `n` elements that were just stored behind the live ones. */
    method Publish(ghost before: seq<Byte>, ghost src: seq<Byte>, n: nat)
      requires Valid() && Count() + n <= mask + 1 && |before| == data.Length
      requires Bytes(n, esize) <= |src| <= Bytes(mask + 1 - Count(), esize) && |src| <= data.Length
      requires Bytes(Slot(inIdx), esize) < data.Length
      requires data[..] == Poke(before, Bytes(Slot(inIdx), esize), src)
      modifies this`inIdx
      ensures Valid() && Count() == old(Count()) + n
      ensures Contents() ==
                Live(before, mask + 1, esize, Slot(outIdx), old(Count())) + src[..Bytes(n, esize)]
    {
      hide Live, Poke, Bytes, Residue, Wrap32, Advance;
      SlotOfIn(inIdx, outIdx, mask);
      LiveStored(before, data[..], mask + 1, esize, Slot(outIdx), Slot(inIdx), Count(), src, n);
      MoveIn(n);
    }

    /** `__kfifo_out_peek`. */
    method OutPeek(dst: array<Byte>, len: nat) returns (n: nat)
      requires Valid() && len < U32 && dst != data && Bytes(Min(len, Count()), esize) <= dst.Length
      modifies dst
      ensures n == Min(len, Count())
      ensures Bytes(n, esize) <= |Contents()|
      ensures dst[..] == Contents()[..Bytes(n, esize)] + old(dst[..])[Bytes(n, esize)..]
    {
      n := Min(len, Count());
      LiveFront(data[..], mask + 1, esize, Slot(outIdx), Count(), n);
      CopyOut(dst, n, outIdx);
    }

    /** `__kfifo_out`. */
    method Out(dst: array<Byte>, len: nat) returns (n: nat)
      requires Valid() && len < U32 && dst != data && Bytes(Min(len, Count()), esize) <= dst.Length
      modifies this`outIdx, dst
      ensures Valid()
      ensures n == Min(len, old(Count()))
      ensures Bytes(n, esize) <= |old(Contents())|
      ensures dst[..] == old(Contents())[..Bytes(n, esize)] + old(dst[..])[Bytes(n, esize)..]
      ensures Contents() == old(Contents())[Bytes(n, esize)..]
    {
      n := OutPeek(dst, len);
      Drop(n);
    }

    /** `out += n` in 32 bits: `n` fewer elements are live, from a slot `n` further round. */
    method MoveOut(n: nat)
      requires Valid() && n <= Count()
      modifies this`outIdx
      ensures Valid() && Count() == old(Count()) - n
      ensures Slot(outIdx) == Advance(Slot(old(outIdx)), n, mask + 1)
    {
      hide Wrap32, Residue, Advance, Bytes;
      LengthBefore(inIdx, outIdx, n);
      SlotAfter(outIdx, n, mask);
      outIdx := Wrap32(outIdx + n);
    }

    /** Moves `out` over the `n` oldest elements. */
    method Drop(n: nat)
      requires Valid() && n <= Count()
      modifies this`outIdx
      ensures Valid() && Count() == old(Count()) - n
      ensures Bytes(n, esize) <= |old(Contents())|
      ensures Contents() == old(Contents())[Bytes(n, esize)..]
    {
      hide Live, Bytes, Residue, Wrap32, Advance;
      LiveDrop(data[..], mask + 1, esize, Slot(outIdx), Count(), n);
      MoveOut(n);
    }
  }

  lemma OrderSmall(order: nat)
    requires Pow2(order) < U32
    ensures order <= 32
  {
    WordSizes();
    Pow2Exponent(order, 32);
  }

  lemma RoundupInRange(size: nat)
    requires 1 <= size <= U32 / 2
    ensures size <= RoundupPow2(size) <= U32 / 2
    ensures RoundupPow2(size) == 1 <==> size == 1
    ensures IsPow2(RoundupPow2(size))
  {
    WordSizes();
    RoundupLeast(size, 31);
  }

  /** The whole elements of a buffer: no more of them fit, and they fill it when nothing is left. */
  lemma WholeCount(bytes: nat, e: nat, r: nat)
    requires e >= 1 && r >= bytes / e
    ensures Bytes(bytes / e, e) <= bytes < Bytes(bytes / e + 1, e)
    ensures Bytes(r, e) <= bytes <==> r == bytes / e
    ensures Bytes(r, e) == bytes <==> r == bytes / e && bytes % e == 0
  {
    var size := bytes / e;
    BytesProduct(size, e);
    assert bytes == size * e + bytes % e;
    BytesOrder(r, size, e);
    BytesOrder(size + 1, r, e);
  }

  /** Rounding up stays inside a buffer of `size` elements exactly for powers of two. */
  lemma RoundupFits(size: nat, e: nat)
    requires size >= 1 && e >= 1
    ensures Bytes(RoundupPow2(size), e) == Bytes(size, e) <==> IsPow2(size)
  {
    RoundupLeast(size, 0);
    BytesOrder(RoundupPow2(size), size, e);
    if IsPow2(size) {
      var k: nat :| size == Pow2(k);
      RoundupLeast(size, k);
    }
  }

  /** Three elements are rounded up to a ring of four, one more than a caller's buffer holds. */
  lemma ThreeElements(e: nat)
    requires e >= 1
    ensures RoundupPow2(3) == 4 && Bytes(RoundupPow2(3), e) > Bytes(3, e)
  {
    assert Log2(2) == 1 && Pow2(2) == 4;
    BytesOrder(3, 4, e);
    BytesOrder(4, 3, e);
  }
}
