/** The user-copy layer of `src/fifo.c`: `__kfifo_from_user` and `__kfifo_to_user`, with faults in
    either piece of a copy.

    A user copy reports how many trailing bytes it could not transfer.  `fault1` and `fault2` are
    those reports for the two pieces, chosen by the environment; whatever a faulting copy leaves in
    the kernel buffer behind the transferred bytes is arbitrary (`pad`). */
module KfifoUser {
  import opened Machine
  import opened Rings
  import opened KfifoCore

  /** `DIV_ROUND_UP` in the 32-bit arithmetic of `unsigned long`. */
  function DivRoundUp32(n: nat, d: nat): nat
    requires 0 < d < U32 && n < U32
  {
    Wrap32(n + d - 1) / d
  }

  /** The rounded-up quotient is right exactly when the numerator `n + d - 1` does not wrap; when
      it wraps the quotient is zero. */
  lemma DivRoundUpExact(n: nat, d: nat)
    requires 0 < d < U32 && 0 < n < U32
    ensures var r := DivRoundUp32(n, d);
            && (n + d - 1 < U32 <==> Bytes(r, d) >= n)
            && (n + d - 1 < U32 ==> r > 0 && Bytes(r - 1, d) < n)
            && (n + d - 1 >= U32 ==> r == 0)
  {
    var r := DivRoundUp32(n, d);
    BytesProduct(r, d);
    if n + d - 1 < U32 {
      Ceiling(n, d, r, (n + d - 1) % d);
      BytesProduct(r - 1, d);
    } else {
      var w := n + d - 1 - U32;
      assert Wrap32(n + d - 1) == Wrap32(w) == w;
      DivUnique(w, d, 0, w);
    }
  }

  lemma Ceiling(n: int, d: int, r: int, s: int)
    requires d > 0 && n > 0 && n + d - 1 == d * r + s && 0 <= s < d
    ensures r > 0 && (r - 1) * d < n <= r * d
  {
    MulAtLeast(r, d);
    assert (r - 1) * d == d * r - d;
  }

  /** A fault of `missing` bytes is rounded to whole elements without wrap-around. */
  predicate Representable(missing: nat, esize: nat) {
    missing + esize - 1 < U32
  }

  /** A ring of two elements of 2^31 - 1 bytes, none of which arrives: the rounded number of missing
      elements is zero, so the fault goes unreported. */
  lemma WrappedFault()
    ensures Layout(0xffff_fffe, 2, 0x7fff_ffff) && 0xffff_fffe == Bytes(2, 0x7fff_ffff)
    ensures !Representable(0xffff_fffe, 0x7fff_ffff) && DivRoundUp32(0xffff_fffe, 0x7fff_ffff) == 0
    ensures Transfer(2, 0x7fff_ffff, 0xffff_fffe, 0, 2)
  {
    assert 2 == Pow2(1);
    BytesProduct(2, 0x7fff_ffff);
    DivRoundUpExact(0xffff_fffe, 0x7fff_ffff);
  }

  /** No fault in a transfer of `want` elements can wrap exactly when one element more would still
      fit the 32-bit address space. */
  lemma SpareElement(want: nat, e: nat)
    requires e >= 1
    ensures (forall missing: nat | missing <= Bytes(want, e) :: Representable(missing, e)) <==>
              Bytes(want + 1, e) <= U32
  {
    hide Bytes;
    BytesAdd(want, 1, e);
    BytesProduct(1, e);
    if Bytes(want + 1, e) > U32 {
      assert !Representable(Bytes(want, e), e);
    }
  }

  /** How many elements arrive when `missing` of `Bytes(len, e)` bytes do not: the whole elements
      among the bytes that did. */
  lemma WholeElements(len: nat, e: nat, missing: nat)
    requires 0 < e < U32 && 0 < missing <= Bytes(len, e) < U32 && Representable(missing, e)
    ensures var n := len - DivRoundUp32(missing, e);
            n >= 0 && Bytes(n, e) <= Bytes(len, e) - missing < Bytes(n + 1, e)
  {
    var r := DivRoundUp32(missing, e);
    DivRoundUpExact(missing, e);
    if r > len { BytesOrder(len, r - 1, e); }
    BytesAdd(len - r, r, e);
    BytesAdd(len - r + 1, r - 1, e);
  }

  /** How many whole elements `size` bytes hold. */
  function Whole(size: nat, e: nat): (n: nat)
    requires e > 0
  {
    if size < e then 0 else Whole(size - e, e) + 1
  }

  lemma {:induction false} WholePart(size: nat, e: nat)
    requires e > 0
    ensures Bytes(Whole(size, e), e) <= size < Bytes(Whole(size, e) + 1, e)
  {
    if size >= e { WholePart(size - e, e); }
  }

  /** It is the quotient of the division in the source. */
  lemma WholeIsQuotient(size: nat, e: nat)
    requires e > 0
    ensures Whole(size, e) == size / e
  {
    hide Whole;
    var n := Whole(size, e);
    WholePart(size, e);
    BytesProduct(n, e);
    BytesAdd(n, 1, e);
    BytesProduct(1, e);
    DivUnique(size, e, n, size - n * e);
  }

  /** What a faulting transfer of `want` elements comes to: `n` whole elements and a result code. */
  ghost predicate Transfer(want: nat, e: nat, missing: nat, rc: int, n: nat) {
    if missing == 0 then
      rc == 0 && n == want
    else if Representable(missing, e) then
      && rc == -EFAULT && n < want
      && Bytes(n, e) <= Bytes(want, e) - missing < Bytes(n + 1, e)
    else
      rc == 0 && n == want
  }

  lemma TransferCount(want: nat, e: nat, missing: nat, ret: nat)
    requires 0 < e < U32 && missing <= Bytes(want, e) < U32
    requires ret == if missing == 0 then 0 else DivRoundUp32(missing, e)
    ensures ret <= want
    ensures Transfer(want, e, missing, if ret != 0 then -EFAULT else 0, want - ret)
    ensures Bytes(want, e) - Bytes(ret, e) == Bytes(want - ret, e)
    ensures missing == 0 || Representable(missing, e) ==> Bytes(want - ret, e) <= Bytes(want, e) - missing
  {
    hide Bytes, DivRoundUp32;
    if missing > 0 {
      DivRoundUpExact(missing, e);
      if Representable(missing, e) { WholeElements(want, e, missing); }
    }
    BytesAdd(want - ret, ret, e);
  }

  lemma PrefixOfPrefix<T>(a: seq<T>, b: seq<T>, k: nat, n: nat)
    requires n <= k <= |a| && k <= |b| && a[..k] == b[..k]
    ensures a[..n] == b[..n]
  {
    assert a[..n] == a[..k][..n];
  }

  // ---------------------------------------------------------------- copy_from_user

  /** `copy_from_user` into the kernel buffer. */
  method CopyFromUser(dst: array<Byte>, at: nat, src: seq<Byte>, fault: nat, pad: seq<Byte>)
      returns (ret: nat, ghost written: seq<Byte>)
    requires at + |src| <= dst.Length && |pad| >= |src|
    modifies dst
    ensures ret == Min(fault, |src|)
    ensures |written| == |src| && written[..|src| - ret] == src[..|src| - ret]
    ensures dst[..] == Splice(old(dst[..]), at, written)
  {
    ret := Min(fault, |src|);
    var bytes := src[..|src| - ret] + pad[..ret];
    written := bytes;
    Memcpy(dst, at, bytes);
  }

  /** Bytes that do not arrive: a fault in the first piece loses the second piece as well. */
  function Missing(bytes: nat, l: nat, fault1: nat, fault2: nat): (m: nat)
    requires l <= bytes
    ensures m <= bytes
  {
    if Min(fault1, l) > 0 then Min(fault1, l) + bytes - l else Min(fault2, bytes - l)
  }

  /** Nothing is missing exactly when no piece faults; otherwise what is not missing is what arrived
      before the first fault. */
  lemma MissingIs(bytes: nat, l: nat, fault1: nat, fault2: nat)
    requires l <= bytes
    ensures Missing(bytes, l, fault1, fault2) == 0 <==> (l == 0 || fault1 == 0) && (bytes == l || fault2 == 0)
    ensures fault1 > 0 && l > 0 ==> bytes - Missing(bytes, l, fault1, fault2) == l - Min(fault1, l)
    ensures fault1 == 0 || l == 0 ==>
              bytes - Missing(bytes, l, fault1, fault2) == l + (bytes - l - Min(fault2, bytes - l))
  {}

  /** Bytes lost by a transfer of `bytes` bytes at free-running index `off`. */
  ghost function Lost(f: Kfifo, off: nat, bytes: nat, fault1: nat, fault2: nat): (m: nat)
    requires f.Valid() && bytes <= f.data.Length
    reads f
    ensures m <= bytes
  {
    BytesOrder(f.mask + 1, f.Slot(off), f.esize);
    Missing(bytes, Min(bytes, f.data.Length - Bytes(f.Slot(off), f.esize)), fault1, fault2)
  }

  lemma SpliceNothing<T>(buf: seq<T>)
    ensures Splice(buf, 0, []) == buf
  {}

  lemma JoinPieces<T>(from: seq<T>, l: nat, first: seq<T>, second: seq<T>, k: nat)
    requires l + |second| == |from| && |first| == l && k <= |second|
    requires first[..l] == from[..l][..l] && second[..k] == from[l..][..k]
    ensures (first + second)[..l] == first && (first + second)[l..] == second
    ensures (first + second)[..l + k] == from[..l + k]
  {
    assert first == from[..l] && (first + second)[..l + k] == first + second[..k];
    assert from[..l + k] == from[..l] + from[l..][..k];
  }

  lemma ElementFits(mask: nat, e: nat)
    ensures e <= Bytes(mask + 1, e)
  {}

  /** The two copies.  `stored` is what lies in the ring afterwards, from `at` on. */
  method PiecesFromUser(dst: array<Byte>, at: nat, from: seq<Byte>, l: nat,
                        fault1: nat, fault2: nat, pad: seq<Byte>)
      returns (missing: nat, ghost stored: seq<Byte>)
    requires at < dst.Length && |from| <= dst.Length && l == Min(|from|, dst.Length - at)
    requires |pad| >= |from|
    modifies dst
    ensures missing == Missing(|from|, l, fault1, fault2)
    ensures |from| - missing <= |stored| <= |from|
    ensures stored[..|from| - missing] == from[..|from| - missing]
    ensures dst[..] == Poke(old(dst[..]), at, stored)
  {
    hide Poke, Splice;
    ghost var before := dst[..];
    ghost var first, second;
    var ret;
    ret, first := CopyFromUser(dst, at, from[..l], fault1, pad);
    if ret != 0 {
      missing := ret + |from| - l;
      stored := first;
      assert from[..l][..l - ret] == from[..l - ret];
      assert stored[..l] == stored && stored[l..] == [];
      SpliceNothing(dst[..]);
    } else {
      ret, second := CopyFromUser(dst, 0, from[l..], fault2, pad);
      missing := ret;
      stored := first + second;
      JoinPieces(from, l, first, second, |from| - l - ret);
    }
    PokeInPieces(before, at, stored, l);
  }

  /** The number of elements not transferred, and the bytes of those that were. */
  method RoundFault(missing: nat, len: nat, esize: nat) returns (ret: nat, copied: nat)
    requires 0 < esize < U32 && missing <= Bytes(len, esize) < U32
    ensures ret <= len && copied == Bytes(len - ret, esize)
    ensures Transfer(len, esize, missing, if ret != 0 then -EFAULT else 0, len - ret)
    ensures missing == 0 || Representable(missing, esize) ==> copied <= Bytes(len, esize) - missing
  {
    ret := if missing != 0 then DivRoundUp32(missing, esize) else 0;
    TransferCount(len, esize, missing, ret);
    BytesProduct(ret, esize);
    BytesProduct(len, esize);
    copied := Wrap32(len * esize - ret * esize);
  }

  /** `kfifo_copy_from_user`. */
  method CopyInFromUser(f: Kfifo, from: seq<Byte>, len: nat, off: nat,
                        fault1: nat, fault2: nat, pad: seq<Byte>)
      returns (ret: nat, copied: nat, ghost missing: nat, ghost stored: seq<Byte>)
    requires f.Valid() && len <= f.mask + 1
    requires |from| == Bytes(len, f.esize) && |pad| >= |from|
    modifies f.data
    ensures |from| <= f.data.Length && missing == Lost(f, off, |from|, fault1, fault2)
    ensures ret <= len && copied == Bytes(len - ret, f.esize) <= |from|
    ensures Transfer(len, f.esize, missing, if ret != 0 then -EFAULT else 0, len - ret)
    ensures missing == 0 || Representable(missing, f.esize) ==>
              copied <= |stored| && stored[..copied] == from[..copied]
    ensures |stored| <= |from| <= f.data.Length && Bytes(f.Slot(off), f.esize) < f.data.Length
    ensures f.data[..] == Poke(old(f.data[..]), Bytes(f.Slot(off), f.esize), stored)
  {
    hide Poke, Bytes, Residue;
    ElementFits(f.mask, f.esize);
    var at, bytes, l := f.Pieces(len, off);
    var lost;
    lost, stored := PiecesFromUser(f.data, at, from, l, fault1, fault2, pad);
    ret, copied := RoundFault(lost, len, f.esize);
    missing := lost;
    BytesOrder(len - ret, len, f.esize);
    if missing == 0 || Representable(missing, f.esize) {
      PrefixOfPrefix(stored, from, |from| - missing, copied);
    }
  }

  /** Copies `want` elements into the free part of the ring, without publishing them. */
  method StoreFromUser(f: Kfifo, from: seq<Byte>, want: nat, fault1: nat, fault2: nat, pad: seq<Byte>)
      returns (ret: nat, copied: nat, ghost missing: nat)
    requires f.Valid() && f.Count() + want <= f.mask + 1
    requires |from| == Bytes(want, f.esize) && |pad| >= |from|
    modifies f.data
    ensures ret <= want && copied == Bytes(want - ret, f.esize) <= |from|
    ensures missing <= |from| <= f.data.Length
    ensures missing == Lost(f, f.inIdx, |from|, fault1, fault2)
    ensures Transfer(want, f.esize, missing, if ret != 0 then -EFAULT else 0, want - ret)
    ensures old(f.Contents()) <=
              Live(f.data[..], f.mask + 1, f.esize, f.Slot(f.outIdx), f.Count() + want - ret)
    ensures missing == 0 || Representable(missing, f.esize) ==>
              Live(f.data[..], f.mask + 1, f.esize, f.Slot(f.outIdx), f.Count() + want - ret) ==
                old(f.Contents()) + from[..copied]
  {
    hide Live, Poke, Bytes, Residue, Wrap32, Advance, Transfer, Lost, Representable;
    ghost var before, slot, tail, c := f.data[..], f.Slot(f.outIdx), f.Slot(f.inIdx), f.Count();
    SlotOfIn(f.inIdx, f.outIdx, f.mask);
    BytesOrder(want, f.mask + 1 - c, f.esize);
    ghost var stored;
    ret, copied, missing, stored :=
      CopyInFromUser(f, from, want, f.inIdx, fault1, fault2, pad);
    BytesOrder(want - ret, want, f.esize);
    StoredLive(before, f.data[..], f.mask + 1, f.esize, slot, tail, c, stored, from, want - ret,
               missing == 0 || Representable(missing, f.esize));
  }

  /** The live elements after a store, `n` of the stored ones counted; `whole` says that those
      arrived. */
  lemma StoredLive(before: seq<Byte>, after: seq<Byte>, size: nat, e: nat, slot: nat, tail: nat, c: nat,
                   stored: seq<Byte>, from: seq<Byte>, n: nat, whole: bool)
    requires Layout(|before|, size, e) && slot < size && c + n <= size
    requires |stored| <= Bytes(size - c, e) && |stored| <= |before|
    requires tail == Advance(slot, c, size) && Bytes(tail, e) < |before|
    requires after == Poke(before, Bytes(tail, e), stored)
    requires Bytes(n, e) <= |from|
    requires whole ==> Bytes(n, e) <= |stored| && stored[..Bytes(n, e)] == from[..Bytes(n, e)]
    ensures Live(before, size, e, slot, c) <= Live(after, size, e, slot, c + n)
    ensures whole ==> Live(after, size, e, slot, c + n) == Live(before, size, e, slot, c) + from[..Bytes(n, e)]
  {
    hide Live, Poke, Bytes, Advance;
    LiveUntouched(before, after, size, e, slot, tail, c, stored, n);
    if whole { LiveStored(before, after, size, e, slot, tail, c, stored, n); }
  }

  /** Whatever was stored behind the live elements, and however many of it are counted, the live
      elements stay in front. */
  lemma LiveUntouched(before: seq<Byte>, after: seq<Byte>, size: nat, e: nat,
                      slot: nat, tail: nat, c: nat, stored: seq<Byte>, n: nat)
    requires Layout(|before|, size, e) && slot < size && c + n <= size
    requires |stored| <= Bytes(size - c, e) && |stored| <= |before|
    requires tail == Advance(slot, c, size) && Bytes(tail, e) < |before|
    requires after == Poke(before, Bytes(tail, e), stored)
    ensures Live(before, size, e, slot, c) <= Live(after, size, e, slot, c + n)
  {
    hide Live, Poke, Bytes, Advance;
    var live, whole := Live(before, size, e, slot, c), Live(after, size, e, slot, c + n);
    BytesZero(e);
    LiveStored(before, after, size, e, slot, tail, c, stored, 0);
    assert live + stored[..0] == live;
    assert Live(after, size, e, slot, c + 0) == Live(after, size, e, slot, c) == live;
    LiveFront(after, size, e, slot, c + n, c);
    assert live == whole[..|live|];
  }

  /** Copies `want` elements into the ring and publishes the whole ones that arrived. */
  method AppendFromUser(f: Kfifo, from: seq<Byte>, want: nat, fault1: nat, fault2: nat, pad: seq<Byte>)
      returns (rc: int, copied: nat, ghost n: nat, ghost missing: nat)
    requires f.Valid() && f.Count() + want <= f.mask + 1
    requires |from| == Bytes(want, f.esize) && |pad| >= |from|
    modifies f`inIdx, f.data
    ensures f.Valid() && f.Count() == old(f.Count()) + n
    ensures missing <= |from| <= f.data.Length
    ensures missing == old(Lost(f, f.inIdx, |from|, fault1, fault2))
    ensures Transfer(want, f.esize, missing, rc, n)
    ensures copied == Bytes(n, f.esize) <= |from|
    ensures old(f.Contents()) <= f.Contents()
    ensures missing == 0 || Representable(missing, f.esize) ==>
              f.Contents() == old(f.Contents()) + from[..copied]
  {
    hide Live, Bytes, Residue, Wrap32, Transfer, Lost, Representable;
    BytesOrder(want, f.mask + 1, f.esize);
    var ret;
    ret, copied, missing := StoreFromUser(f, from, want, fault1, fault2, pad);
    n := want - ret;
    rc := if ret != 0 then -EFAULT else 0;
    f.MoveIn(want - ret);
  }

  /** The number of elements a caller's byte count asks for, cut to what the ring can take. */
  method Wanted(f: Kfifo, size: nat, room: nat) returns (want: nat, bytes: nat)
    requires f.Valid() && size < U32 && room <= f.mask + 1
    ensures want == Min(Whole(size, f.esize), room) && bytes == Bytes(want, f.esize) <= size
    ensures bytes <= f.data.Length
  {
    hide Whole, Bytes;
    WholePart(size, f.esize);
    want := Min(Whole(size, f.esize), room);
    BytesOrder(want, Whole(size, f.esize), f.esize);
    bytes := f.Scale(want);
  }

  /** `__kfifo_from_user`.  A fault is reported, the ring grows by exactly the whole elements that
      arrived, and nothing live is ever disturbed; a fault too large to be rounded in 32 bits goes
      unreported. */
  method FromUser(f: Kfifo, from: seq<Byte>, fault1: nat, fault2: nat, pad: seq<Byte>)
      returns (rc: int, copied: nat, ghost want: nat, ghost n: nat, ghost missing: nat)
    requires f.Valid() && |from| < U32 && |pad| >= |from|
    modifies f`inIdx, f.data
    ensures f.Valid() && f.Count() == old(f.Count()) + n
    ensures want == Min(Whole(|from|, f.esize), f.mask + 1 - old(f.Count()))
    ensures Bytes(want, f.esize) <= f.data.Length
    ensures missing == old(Lost(f, f.inIdx, Bytes(want, f.esize), fault1, fault2))
    ensures Transfer(want, f.esize, missing, rc, n)
    ensures copied == Bytes(n, f.esize) <= |from|
    ensures old(f.Contents()) <= f.Contents()
    ensures missing == 0 || Representable(missing, f.esize) ==>
              f.Contents() == old(f.Contents()) + from[..copied]
  {
    hide Live, Bytes, Residue, Wrap32, Transfer, Lost, Representable, Whole;
    var w, bytes := Wanted(f, |from|, f.Unused());
    want := w;
    rc, copied, n, missing := AppendFromUser(f, from[..bytes], w, fault1, fault2, pad);
  }

  // ---------------------------------------------------------------- copy_to_user

  /** `copy_to_user` of the front of `src`. */
  method CopyToUser(to: array<Byte>, at: nat, src: seq<Byte>, fault: nat) returns (ret: nat)
    requires at + |src| <= to.Length
    modifies to
    ensures ret == Min(fault, |src|)
    ensures to[..] == Splice(old(to[..]), at, src[..|src| - ret])
  {
    ret := Min(fault, |src|);
    Memcpy(to, at, src[..|src| - ret]);
  }

  /** The two copies: exactly the bytes that are not missing change hands. */
  method PiecesToUser(data: array<Byte>, at: nat, bytes: nat, l: nat, to: array<Byte>,
                      fault1: nat, fault2: nat) returns (missing: nat)
    requires at < data.Length && bytes <= data.Length && l == Min(bytes, data.Length - at)
    requires bytes <= to.Length && to != data
    modifies to
    ensures missing == Missing(bytes, l, fault1, fault2)
    ensures Delivered(to[..], old(to[..]), Ring(data[..], at, bytes), bytes - missing)
  {
    hide Ring, Splice, Delivered;
    ghost var before := to[..];
    var ret := CopyToUser(to, 0, data[at..at + l], fault1);
    if ret != 0 {
      missing := ret + bytes - l;
      OnePiece(data[..], at, bytes, l, before, l - ret);
    } else {
      ret := CopyToUser(to, l, data[..bytes - l], fault2);
      missing := ret;
      TwoPieces(data[..], at, bytes, l, before, bytes - l - ret);
    }
  }

  /** The first `got` cells of `after` come from `src`, the others from `before`. */
  ghost predicate Delivered<T>(after: seq<T>, before: seq<T>, src: seq<T>, got: nat) {
    got <= |src| && got <= |before| && after == src[..got] + before[got..]
  }

  lemma OnePiece<T>(buf: seq<T>, at: nat, n: nat, l: nat, dst: seq<T>, k: nat)
    requires at < |buf| && n <= |buf| && n <= |dst| && l == Min(n, |buf| - at) && k <= l
    ensures Delivered(Splice(dst, 0, buf[at..at + l][..k]), dst, Ring(buf, at, n), k)
  {
    assert Ring(buf, at, n)[..k] == buf[at..at + l][..k];
  }

  lemma TwoPieces<T>(buf: seq<T>, at: nat, n: nat, l: nat, dst: seq<T>, k: nat)
    requires at < |buf| && n <= |buf| && n <= |dst| && l == Min(n, |buf| - at) && k <= n - l
    ensures Delivered(Splice(Splice(dst, 0, buf[at..at + l][..l]), l, buf[..n - l][..k]),
                      dst, Ring(buf, at, n), l + k)
  {
    hide Ring, Splice;
    var first, second := buf[at..at + l], buf[..n - l][..k];
    assert buf[at..at + l][..l] == first;
    PrefixOfRing(buf, at, n, l, k);
    SplicedTwice(dst, first, second);
  }

  lemma PrefixOfRing<T>(buf: seq<T>, at: nat, n: nat, l: nat, k: nat)
    requires at < |buf| && n <= |buf| && l == Min(n, |buf| - at) && k <= n - l
    ensures Ring(buf, at, n)[..l + k] == buf[at..at + l] + buf[..n - l][..k]
  {}

  lemma SplicedTwice<T>(dst: seq<T>, first: seq<T>, second: seq<T>)
    requires |first| + |second| <= |dst|
    ensures Splice(Splice(dst, 0, first), |first|, second) == first + second + dst[|first| + |second|..]
  {}

  /** `kfifo_copy_to_user`. */
  method CopyOutToUser(f: Kfifo, to: array<Byte>, len: nat, off: nat, fault1: nat, fault2: nat)
      returns (ret: nat, copied: nat, ghost missing: nat)
    requires f.Valid() && len <= f.mask + 1 && Bytes(len, f.esize) <= to.Length && to != f.data
    modifies to
    ensures Bytes(len, f.esize) <= f.data.Length
    ensures missing == Lost(f, off, Bytes(len, f.esize), fault1, fault2)
    ensures ret <= len && copied == Bytes(len - ret, f.esize) <= Bytes(len, f.esize)
    ensures Transfer(len, f.esize, missing, if ret != 0 then -EFAULT else 0, len - ret)
    ensures Delivered(to[..], old(to[..]), Live(f.data[..], f.mask + 1, f.esize, f.Slot(off), len),
                      Bytes(len, f.esize) - missing)
  {
    hide Ring, Bytes, Residue, Delivered, Transfer;
    ElementFits(f.mask, f.esize);
    var at, bytes, l := f.Pieces(len, off);
    var lost := PiecesToUser(f.data, at, bytes, l, to, fault1, fault2);
    ret, copied := RoundFault(lost, len, f.esize);
    missing := lost;
    BytesOrder(len - ret, len, f.esize);
  }

  /** `__kfifo_to_user`.  The user sees a prefix of the live bytes, and the ring shrinks by exactly
      the whole elements that were delivered; a fault too large to be rounded in 32 bits goes
      unreported. */
  method ToUser(f: Kfifo, to: array<Byte>, size: nat, fault1: nat, fault2: nat)
      returns (rc: int, copied: nat, ghost want: nat, ghost n: nat, ghost missing: nat)
    requires f.Valid() && size < U32 && size <= to.Length && to != f.data
    modifies f`outIdx, to
    ensures f.Valid() && f.Count() == old(f.Count()) - n
    ensures want == Min(Whole(size, f.esize), old(f.Count()))
    ensures Bytes(want, f.esize) <= |old(f.Contents())|
    ensures missing == old(Lost(f, f.outIdx, Bytes(want, f.esize), fault1, fault2))
    ensures Transfer(want, f.esize, missing, rc, n)
    ensures copied == Bytes(n, f.esize) <= |old(f.Contents())|
    ensures Delivered(to[..], old(to[..]), old(f.Contents()), Bytes(want, f.esize) - missing)
    ensures f.Contents() == old(f.Contents())[copied..]
  {
    hide Live, Bytes, Residue, Wrap32, Delivered, Transfer, Lost, Whole, Layout;
    var w, bytes := Wanted(f, size, f.Count());
    want := w;
    var ret;
    ghost var c := f.Contents();
    ret, copied, missing := FrontToUser(f, to, w, fault1, fault2);
    assert f.Contents() == c;
    ghost var delivered := to[..];
    n := w - ret;
    rc := if ret != 0 then -EFAULT else 0;
    f.Drop(w - ret);
    assert to[..] == delivered;
  }

  /** Copies the `want` oldest elements to the user, and leaves them in the ring. */
  method FrontToUser(f: Kfifo, to: array<Byte>, want: nat, fault1: nat, fault2: nat)
      returns (ret: nat, copied: nat, ghost missing: nat)
    requires f.Valid() && want <= f.Count() && Bytes(want, f.esize) <= to.Length && to != f.data
    modifies to
    ensures Bytes(want, f.esize) <= |f.Contents()| <= f.data.Length
    ensures missing == Lost(f, f.outIdx, Bytes(want, f.esize), fault1, fault2)
    ensures ret <= want && copied == Bytes(want - ret, f.esize)
    ensures Transfer(want, f.esize, missing, if ret != 0 then -EFAULT else 0, want - ret)
    ensures Delivered(to[..], old(to[..]), f.Contents(), Bytes(want, f.esize) - missing)
  {
    hide Live, Bytes, Residue, Wrap32, Delivered, Transfer, Lost;
    LiveFront(f.data[..], f.mask + 1, f.esize, f.Slot(f.outIdx), f.Count(), want);
    ret, copied, missing := CopyOutToUser(f, to, want, f.outIdx, fault1, fault2);
    DeliveredFront(to[..], old(to[..]), f.Contents(), Bytes(want, f.esize), Bytes(want, f.esize) - missing);
  }

  /** A prefix of a prefix is a prefix. */
  lemma DeliveredFront<T>(after: seq<T>, before: seq<T>, src: seq<T>, n: nat, got: nat)
    requires n <= |src| && Delivered(after, before, src[..n], got)
    ensures Delivered(after, before, src, got)
  {
    assert src[..n][..got] == src[..got];
  }
}
