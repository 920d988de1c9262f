/** The record layer of `src/fifo.c`: length-prefixed records in a ring of bytes.

    `Queue` is the abstract value, a queue of byte strings.  Headers and bodies may straddle the
    end of the buffer and the indices may wrap at 2^32; none of that shows in the queue. */
module KfifoRecord {
  import opened Machine
  import opened Rings
  import opened KfifoCore
  import opened KfifoUser
  import opened Records

  /** A ring of bytes holding whole records with `rs`-byte headers. */
  ghost predicate RecordRing(f: Kfifo, rs: nat)
    reads f, f.data
  {
    HeaderSize(rs) && f.Valid() && f.esize == 1 && WellFormed(f.Contents(), rs)
  }

  ghost function Queue(f: Kfifo, rs: nat): seq<seq<Byte>>
    requires RecordRing(f, rs)
    reads f, f.data
  {
    Decode(f.Contents(), rs)
  }

  lemma {:induction false} BytesOne(n: nat)
    ensures Bytes(n, 1) == n
  {
    if n > 0 { BytesOne(n - 1); }
  }

  /** The bytes from `k` behind `out` on, as a part of the contents. */
  lemma PartOfContents(f: Kfifo, k: nat, n: nat)
    requires f.Valid() && f.esize == 1 && k + n <= f.Count()
    ensures |f.Contents()| == f.Count()
    ensures Live(f.data[..], f.mask + 1, 1, f.Slot(Wrap32(f.outIdx + k)), n) == f.Contents()[k..k + n]
  {
    hide Live, Residue, Wrap32, Bytes, Advance;
    var size, slot, c := f.mask + 1, f.Slot(f.outIdx), f.Count();
    BytesOne(c);
    BytesOne(k);
    BytesOne(n);
    SlotAfter(f.outIdx, k, f.mask);
    LiveDrop(f.data[..], size, 1, slot, c, k);
    LiveFront(f.data[..], size, 1, Advance(slot, k, size), c - k, n);
    assert f.Contents()[k..][..n] == f.Contents()[k..k + n];
  }

  // ---------------------------------------------------------------- headers

  /** `__kfifo_max_r`. */
  function MaxR(len: nat, rs: nat): (r: nat)
    requires HeaderSize(rs)
    ensures r < Limit(rs) && r <= len
    ensures r == Min(len, Limit(rs) - 1)
  {
    if len > Limit(rs) - 1 then Limit(rs) - 1 else len
  }

  /** The byte stored `k` behind free-running index `idx`. */
  method PeekByte(f: Kfifo, idx: nat) returns (b: Byte)
    requires f.Valid() && f.esize == 1
    ensures f.data.Length == f.mask + 1 && b == f.data[f.Slot(idx)]
  {
    BytesOne(f.mask + 1);
    MaskedSlot(idx, f.mask);
    b := f.data[And(idx, f.mask)];
  }

  /** `__kfifo_peek_n`: the header at `out`, whatever the ring holds there. */
  method PeekN(f: Kfifo, rs: nat) returns (n: nat)
    requires f.Valid() && f.esize == 1 && HeaderSize(rs)
    ensures n < Limit(rs)
    ensures |f.Contents()| == f.Count()
    ensures f.Count() >= rs ==> n == HeaderValue(f.Contents(), rs)
  {
    BytesOne(f.Count());
    var low: int := PeekByte(f, f.outIdx);
    n := low;
    if rs > 1 {
      var high: int := PeekByte(f, Wrap32(f.outIdx + 1));
      OrBytes(low, high);
      n := Or(n, 256 * high);
    }
    if f.Count() >= rs { HeaderCells(f, rs); }
  }

  /** Or-ing two bytes at different positions adds them. */
  lemma OrBytes(low: nat, high: nat)
    requires low < 256
    ensures Or(low, 256 * high) == low + 256 * high
  {
    assert Pow2(8) == 256 by { assert Pow2(4) == 16 by { assert Pow2(2) == 4; } }
    OrShifted(low, high, 8);
  }

  lemma {:induction false} OrShifted(low: nat, high: nat, w: nat)
    requires low < Pow2(w)
    ensures Or(low, Pow2(w) * high) == low + Pow2(w) * high
    decreases w
  {
    if w == 0 {
      OrZero(high);
    } else {
      OrShifted(low / 2, high, w - 1);
      DoubleProduct(Pow2(w - 1), high);
      OrDigits(low, Pow2(w) * high);
    }
  }

  lemma {:induction false} OrZero(x: nat)
    ensures Or(0, x) == x
  {
    if x > 0 { OrZero(x / 2); }
  }

  lemma HeaderCells(f: Kfifo, rs: nat)
    requires f.Valid() && f.esize == 1 && HeaderSize(rs) && f.Count() >= rs
    requires f.data.Length == f.mask + 1
    ensures |f.Contents()| == f.Count()
    ensures f.Contents()[0] == f.data[f.Slot(f.outIdx)]
    ensures rs == 2 ==> f.Contents()[1] == f.data[f.Slot(Wrap32(f.outIdx + 1))]
  {
    hide Residue, Wrap32;
    BytesOne(f.Count());
    BytesOne(f.Slot(f.outIdx));
    SlotAfter(f.outIdx, 1, f.mask);
    RingAt(f.data[..], f.Slot(f.outIdx), f.Count(), 0);
    if rs == 2 { RingAt(f.data[..], f.Slot(f.outIdx), f.Count(), 1); }
  }

  lemma HeaderPoke(buf: seq<Byte>, at: nat, n: nat, rs: nat)
    requires HeaderSize(rs) && at < |buf| && |buf| >= 2
    ensures Poke(buf, at, Header(n, rs)) ==
              var first := buf[at := n % 256];
              if rs == 1 then first else first[Advance(at, 1, |buf|) := n / 256 % 256]
  {
    hide Poke, Advance;
    var low: Byte, high: Byte := n % 256, n / 256 % 256;
    PokeOne(buf, at, low);
    if rs == 2 {
      PokeOne(buf[at := low], Advance(at, 1, |buf|), high);
      PokeTwice(buf, at, [low], [high]);
      assert Header(n, rs) == [low] + [high];
    } else {
      assert Header(n, rs) == [low];
    }
  }

  lemma PokeOne(buf: seq<Byte>, at: nat, b: Byte)
    requires at < |buf|
    ensures Poke(buf, at, [b]) == buf[at := b]
  {}

  /** `__kfifo_poke_n`: writes the header behind the live bytes, byte by byte. */
  method PokeN(f: Kfifo, n: nat, rs: nat)
    requires f.Valid() && f.esize == 1 && HeaderSize(rs)
    modifies f.data
    ensures f.data.Length == f.mask + 1
    ensures f.data[..] == Poke(old(f.data[..]), f.Slot(f.inIdx), Header(n, rs))
  {
    hide Residue, Wrap32, And, Poke, Header, Advance;
    BytesOne(f.mask + 1);
    MaskedSlot(f.inIdx, f.mask);
    HeaderPoke(f.data[..], f.Slot(f.inIdx), n, rs);
    f.data[And(f.inIdx, f.mask)] := n % 256;
    if rs > 1 {
      MaskedSlot(Wrap32(f.inIdx + 1), f.mask);
      SlotAfter(f.inIdx, 1, f.mask);
      f.data[And(Wrap32(f.inIdx + 1), f.mask)] := n / 256 % 256;
    }
  }

  // ---------------------------------------------------------------- kernel buffers

  /** Header and body are one store. */
  lemma RecordPoke(buf: seq<Byte>, at: nat, hdr: seq<Byte>, body: seq<Byte>)
    requires at < |buf| && |hdr| + |body| <= |buf|
    ensures Poke(Poke(buf, at, hdr), Advance(at, |hdr|, |buf|), body) == Poke(buf, at, hdr + body)
  {
    PokeTwice(buf, at, hdr, body);
  }

  /** Publishing a stored record. */
  method PublishRecord(f: Kfifo, ghost before: seq<Byte>, ghost body: seq<Byte>, len: nat, rs: nat)
    requires f.Valid() && f.esize == 1 && HeaderSize(rs) && |body| == len
    requires f.Count() + rs + len <= f.mask + 1 == f.data.Length == |before|
    requires f.data[..] == Poke(before, f.Slot(f.inIdx), Record(body, rs))
    modifies f`inIdx
    ensures f.Valid()
    ensures f.Contents() ==
              Live(before, f.mask + 1, 1, f.Slot(f.outIdx), old(f.Count())) + Record(body, rs)
  {
    hide Live, Poke, Residue, Wrap32, Bytes;
    BytesOne(len + rs);
    BytesOne(f.Slot(f.inIdx));
    BytesOne(f.mask + 1 - f.Count());
    f.Publish(before, Record(body, rs), len + rs);
    assert Record(body, rs)[..len + rs] == Record(body, rs);
  }

  /** `__kfifo_in_r`: one record more, or nothing when it does not fit.  The length is not checked
      against the header: a longer record is stored, and is not read back as what was written. */
  method InR(f: Kfifo, buf: seq<Byte>, rs: nat) returns (n: nat)
    requires RecordRing(f, rs) && |buf| + rs < U32
    modifies f`inIdx, f.data
    ensures f.Valid() && f.esize == 1
    ensures |buf| + rs > f.mask + 1 - old(f.Count()) ==> n == 0 && f.Contents() == old(f.Contents())
    ensures |buf| + rs <= f.mask + 1 - old(f.Count()) ==>
              && n == |buf| && f.Contents() == old(f.Contents()) + Record(buf, rs)
              && (|buf| < Limit(rs) <==>
                    RecordRing(f, rs) && Queue(f, rs) == old(Queue(f, rs)) + [buf])
  {
    hide Live, Poke, Residue, Bytes, WellFormed, Decode, Header;
    var len := |buf|;
    if Wrap32(len + rs) > f.Unused() { return 0; }
    ghost var before := f.data[..];
    BytesOne(len);
    BytesOne(f.mask + 1);
    PokeN(f, len, rs);
    SlotAfter(f.inIdx, rs, f.mask);
    BytesOne(f.Slot(Wrap32(f.inIdx + rs)));
    RecordPoke(before, f.Slot(f.inIdx), Header(len, rs), buf);
    f.CopyIn(buf, len, Wrap32(f.inIdx + rs));
    PublishRecord(f, before, buf, len, rs);
    AppendRecord(old(f.Contents()), buf, rs);
    n := len;
  }

  /** `__kfifo_len_r`: the length of the head record, or a stale header when there is none. */
  method LenR(f: Kfifo, rs: nat) returns (n: nat)
    requires RecordRing(f, rs)
    ensures n < Limit(rs)
    ensures Queue(f, rs) != [] ==> n == |Queue(f, rs)[0]|
  {
    hide WellFormed, Decode, HeaderValue, Live;
    if f.Contents() != [] { HeadRecord(f.Contents(), rs); }
    n := PeekN(f, rs);
  }

  /** `kfifo_out_copy_r`: a prefix of the head record. */
  method OutCopyR(f: Kfifo, dst: array<Byte>, len: nat, rs: nat) returns (l: nat, n: nat)
    requires RecordRing(f, rs) && f.Contents() != [] && dst != f.data && len <= dst.Length
    modifies dst
    ensures n == |Queue(f, rs)[0]| && l == Min(len, n) && rs + n <= f.Count()
    ensures n == HeaderValue(f.Contents(), rs)
    ensures Delivered(dst[..], old(dst[..]), Queue(f, rs)[0], l)
  {
    hide WellFormed, Decode, HeaderValue, Live, Residue, Bytes, Delivered, Wrap32;
    HeadRecord(f.Contents(), rs);
    n := PeekN(f, rs);
    l := Min(len, n);
    BytesOne(l);
    PartOfContents(f, rs, l);
    f.CopyOut(dst, l, Wrap32(f.outIdx + rs));
    HeadDelivered(f.Contents(), rs, n, l, dst[..], old(dst[..]));
  }

  lemma HeadDelivered(c: seq<Byte>, rs: nat, n: nat, l: nat, after: seq<Byte>, before: seq<Byte>)
    requires l <= n && rs + n <= |c| && l <= |before| && after == c[rs..rs + l] + before[l..]
    ensures Delivered(after, before, c[rs..rs + n], l)
  {
    assert c[rs..rs + n][..l] == c[rs..rs + l];
  }

  /** `__kfifo_out_peek_r`. */
  method OutPeekR(f: Kfifo, dst: array<Byte>, len: nat, rs: nat) returns (l: nat)
    requires RecordRing(f, rs) && dst != f.data && len <= dst.Length
    modifies dst
    ensures f.inIdx == f.outIdx ==> Queue(f, rs) == [] && l == 0 && dst[..] == old(dst[..])
    ensures f.inIdx != f.outIdx ==>
              && Queue(f, rs) != [] && l == Min(len, |Queue(f, rs)[0]|)
              && Delivered(dst[..], old(dst[..]), Queue(f, rs)[0], l)
  {
    hide WellFormed, Decode, Live, Bytes;
    EmptyOrNot(f);
    if f.inIdx == f.outIdx { return 0; }
    var n;
    l, n := OutCopyR(f, dst, len, rs);
  }

  lemma EmptyOrNot(f: Kfifo)
    requires f.Valid() && f.esize == 1
    ensures f.Contents() == [] <==> f.inIdx == f.outIdx
  {
    hide Live;
    BytesOne(f.Count());
    CountZero(f.inIdx, f.outIdx);
  }

  lemma CountZero(inIdx: nat, outIdx: nat)
    requires inIdx < U32 && outIdx < U32
    ensures Wrap32(inIdx - outIdx) == 0 <==> inIdx == outIdx
  {
    if inIdx < outIdx { assert Wrap32(inIdx - outIdx) == Wrap32(inIdx - outIdx + U32); }
  }

  /** Moving `out` past `in` makes the unsigned difference huge. */
  lemma CountNegative(idx: nat, k: nat)
    requires idx < U32 && 0 < k < U32
    ensures Wrap32(idx - Wrap32(idx + k)) == U32 - k
  {
    var next := if idx + k < U32 then idx + k else idx + k - U32;
    assert Wrap32(idx + k) == next;
    assert Wrap32(idx - next) == U32 - k by {
      if idx < next { assert Wrap32(idx - next) == Wrap32(idx - next + U32); }
    }
  }

  /** Dropping the head record. */
  method DropRecord(f: Kfifo, n: nat, rs: nat)
    requires RecordRing(f, rs) && f.Contents() != [] && n == HeaderValue(f.Contents(), rs)
    modifies f`outIdx
    ensures RecordRing(f, rs) && Queue(f, rs) == old(Queue(f, rs))[1..]
  {
    hide WellFormed, Decode, HeaderValue, Live, Bytes, Wrap32;
    HeadRecord(f.Contents(), rs);
    BytesOne(f.Count());
    BytesOne(n + rs);
    f.Drop(n + rs);
  }

  /** `__kfifo_out_r`: yields a prefix of the head record and drops the whole record. */
  method OutR(f: Kfifo, dst: array<Byte>, len: nat, rs: nat) returns (l: nat)
    requires RecordRing(f, rs) && dst != f.data && len <= dst.Length
    modifies f`outIdx, dst
    ensures RecordRing(f, rs)
    ensures old(Queue(f, rs)) == [] ==> l == 0 && Queue(f, rs) == [] && dst[..] == old(dst[..])
    ensures old(Queue(f, rs)) != [] ==>
              && l == Min(len, |old(Queue(f, rs))[0]|)
              && Delivered(dst[..], old(dst[..]), old(Queue(f, rs))[0], l)
              && Queue(f, rs) == old(Queue(f, rs))[1..]
  {
    hide WellFormed, Decode, HeaderValue, Live, Bytes, Wrap32;
    EmptyOrNot(f);
    if f.inIdx == f.outIdx { return 0; }
    var n;
    l, n := OutCopyR(f, dst, len, rs);
    DropRecord(f, n, rs);
  }

  /** `__kfifo_skip_r` drops the head record.  It does not look whether there is one: on an empty
      ring the count becomes negative, so the ring survives exactly when it was not empty. */
  method SkipR(f: Kfifo, rs: nat)
    requires RecordRing(f, rs)
    modifies f`outIdx
    ensures f.Valid() <==> old(Queue(f, rs)) != []
    ensures old(Queue(f, rs)) != [] ==>
              RecordRing(f, rs) && Queue(f, rs) == old(Queue(f, rs))[1..]
  {
    hide WellFormed, Decode, HeaderValue, Live, Bytes, Wrap32, Residue, Advance;
    EmptyOrNot(f);
    var n := PeekN(f, rs);
    ghost var c := f.Contents();
    if f.inIdx == f.outIdx {
      CountNegative(f.outIdx, n + rs);
    } else {
      HeadRecord(c, rs);
      SkippedLive(f, n + rs);
    }
    f.outIdx := Wrap32(f.outIdx + (n + rs));
    assert c != [] ==> f.Valid() && f.Contents() == c[n + rs..];
  }

  /** What moving `out` by `k` live bytes leaves. */
  lemma SkippedLive(f: Kfifo, k: nat)
    requires f.Valid() && f.esize == 1 && k <= f.Count()
    ensures |f.Contents()| == f.Count() && Wrap32(f.inIdx - Wrap32(f.outIdx + k)) == f.Count() - k
    ensures Live(f.data[..], f.mask + 1, 1, f.Slot(Wrap32(f.outIdx + k)), f.Count() - k) == f.Contents()[k..]
  {
    hide Live, Bytes, Wrap32, Residue, Advance;
    BytesOne(k);
    BytesOne(f.Count());
    LengthBefore(f.inIdx, f.outIdx, k);
    SlotAfter(f.outIdx, k, f.mask);
    LiveDrop(f.data[..], f.mask + 1, 1, f.Slot(f.outIdx), f.Count(), k);
  }

  // ---------------------------------------------------------------- user buffers

  /** `__kfifo_from_user_r`: one record of the clamped length, or nothing at all. */
  method FromUserR(f: Kfifo, from: seq<Byte>, rs: nat, fault1: nat, fault2: nat, pad: seq<Byte>)
      returns (rc: int, copied: nat)
    requires RecordRing(f, rs) && |from| < U32 && |pad| >= |from|
    modifies f`inIdx, f.data
    ensures RecordRing(f, rs)
    ensures var len := MaxR(|from|, rs);
            if len + rs > f.mask + 1 - old(f.Count()) then
              rc == 0 && copied == 0 && Queue(f, rs) == old(Queue(f, rs))
            else if old(Lost(f, Wrap32(f.inIdx + rs), len, fault1, fault2)) > 0 then
              rc == -EFAULT && copied == 0 && Queue(f, rs) == old(Queue(f, rs))
            else
              rc == 0 && copied == len && Queue(f, rs) == old(Queue(f, rs)) + [from[..len]]
  {
    hide Live, Poke, Residue, Bytes, WellFormed, Decode, Header, Lost;
    var len := MaxR(|from|, rs);
    if Wrap32(len + rs) > f.Unused() { return 0, 0; }
    ghost var before := f.data[..];
    var ret;
    ghost var stored;
    ret, copied, stored := StoreRecordFromUser(f, from[..len], rs, fault1, fault2, pad);
    if ret != 0 {
      UnpublishedStore(f, before, Header(len, rs) + stored);
      return -EFAULT, 0;
    }
    PublishRecord(f, before, from[..len], len, rs);
    AppendRecord(old(f.Contents()), from[..len], rs);
    rc := 0;
  }

  /** Header and body behind the live bytes, as far as the user's bytes arrive. */
  method StoreRecordFromUser(f: Kfifo, body: seq<Byte>, rs: nat, fault1: nat, fault2: nat, pad: seq<Byte>)
      returns (ret: nat, copied: nat, ghost stored: seq<Byte>)
    requires f.Valid() && f.esize == 1 && HeaderSize(rs) && f.Count() + rs + |body| <= f.mask + 1
    requires |pad| >= |body|
    modifies f.data
    ensures f.data.Length == f.mask + 1 && |stored| <= |body|
    ensures f.data[..] == Poke(old(f.data[..]), f.Slot(f.inIdx), Header(|body|, rs) + stored)
    ensures ret != 0 <==> Lost(f, Wrap32(f.inIdx + rs), |body|, fault1, fault2) > 0
    ensures ret == 0 ==> stored == body && copied == |body|
  {
    hide Live, Poke, Residue, Bytes, Header, Lost, Wrap32, Advance;
    ghost var before := f.data[..];
    BytesOne(|body|);
    BytesOne(f.mask + 1);
    PokeN(f, |body|, rs);
    SlotAfter(f.inIdx, rs, f.mask);
    BytesOne(f.Slot(Wrap32(f.inIdx + rs)));
    ghost var missing;
    ret, copied, missing, stored :=
      CopyInFromUser(f, body, |body|, Wrap32(f.inIdx + rs), fault1, fault2, pad);
    RecordPoke(before, f.Slot(f.inIdx), Header(|body|, rs), stored);
    BytesOne(|body| - ret);
  }

  /** What is stored behind the live bytes does not disturb them. */
  lemma UnpublishedStore(f: Kfifo, before: seq<Byte>, src: seq<Byte>)
    requires f.Valid() && f.esize == 1 && |before| == f.data.Length == f.mask + 1
    requires f.Count() + |src| <= f.mask + 1
    requires f.data[..] == Poke(before, f.Slot(f.inIdx), src)
    ensures f.Contents() == Live(before, f.mask + 1, 1, f.Slot(f.outIdx), f.Count())
  {
    hide Live, Poke, Residue, Wrap32, Bytes, Advance;
    BytesOne(f.Slot(f.inIdx));
    BytesOne(f.mask + 1 - f.Count());
    BytesOne(0);
    SlotOfIn(f.inIdx, f.outIdx, f.mask);
    LiveStored(before, f.data[..], f.mask + 1, 1, f.Slot(f.outIdx), f.Slot(f.inIdx), f.Count(), src, 0);
    assert src[..0] == [];
  }

  /** `__kfifo_to_user_r`: delivers a prefix of the head record and drops the record, or leaves it
      in place on a fault. */
  method ToUserR(f: Kfifo, to: array<Byte>, size: nat, rs: nat, fault1: nat, fault2: nat)
      returns (rc: int, copied: nat)
    requires RecordRing(f, rs) && size < U32 && size <= to.Length && to != f.data
    modifies f`outIdx, to
    ensures RecordRing(f, rs)
    ensures old(Queue(f, rs)) == [] ==>
              rc == 0 && copied == 0 && Queue(f, rs) == [] && to[..] == old(to[..])
    ensures old(Queue(f, rs)) != [] ==>
              var head := old(Queue(f, rs))[0];
              var len := Min(size, |head|);
              && 0 <= len <= f.data.Length
              && if old(Lost(f, Wrap32(f.outIdx + rs), len, fault1, fault2)) > 0 then
                   rc == -EFAULT && copied == 0 && Queue(f, rs) == old(Queue(f, rs))
                 else
                   && rc == 0 && copied == len && Queue(f, rs) == old(Queue(f, rs))[1..]
                   && Delivered(to[..], old(to[..]), head, len)
  {
    hide WellFormed, Decode, HeaderValue, Live, Residue, Bytes, Lost, Delivered, Wrap32;
    EmptyOrNot(f);
    if f.inIdx == f.outIdx { return 0, 0; }
    HeadRecord(f.Contents(), rs);
    var n := PeekN(f, rs);
    var len := Min(size, n);
    var ret;
    ret, copied := BodyToUser(f, to, len, rs, fault1, fault2);
    HeadPrefix(f.Contents(), rs, n, len, to[..], old(to[..]));
    if ret != 0 { return -EFAULT, 0; }
    DropRecord(f, n, rs);
    rc := 0;
  }

  lemma HeadPrefix(c: seq<Byte>, rs: nat, n: nat, len: nat, after: seq<Byte>, before: seq<Byte>)
    requires len <= n && rs + n <= |c| && len <= |before|
    ensures Delivered(after, before, c[rs..rs + len], len) ==> Delivered(after, before, c[rs..rs + n], len)
  {
    assert c[rs..rs + n][..len] == c[rs..rs + len];
  }

  /** Copies `len` bytes from behind the header to the user. */
  method BodyToUser(f: Kfifo, to: array<Byte>, len: nat, rs: nat, fault1: nat, fault2: nat)
      returns (ret: nat, copied: nat)
    requires f.Valid() && f.esize == 1 && rs + len <= f.Count() && len <= to.Length && to != f.data
    modifies to
    ensures |f.Contents()| == f.Count() && len <= f.data.Length
    ensures ret != 0 <==> Lost(f, Wrap32(f.outIdx + rs), len, fault1, fault2) > 0
    ensures ret == 0 ==> copied == len
    ensures ret == 0 ==> Delivered(to[..], old(to[..]), f.Contents()[rs..rs + len], len)
  {
    hide Live, Residue, Bytes, Lost, Delivered, Wrap32;
    BytesOne(len);
    BytesOne(f.mask + 1);
    PartOfContents(f, rs, len);
    ghost var missing;
    ret, copied, missing := CopyOutToUser(f, to, len, Wrap32(f.outIdx + rs), fault1, fault2);
    BytesOne(len - ret);
  }
}
