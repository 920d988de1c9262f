/** The DMA calls of the record layer of `src/fifo.c`: a device reads or writes the body of a record
    through a scatterlist, and the header is the driver's business. */
module KfifoRecordSgl {
  import opened Machine
  import opened Rings
  import opened KfifoCore
  import opened KfifoSgl
  import opened Records
  import opened KfifoRecord

  // ---------------------------------------------------------------- in

  /** `__kfifo_dma_in_prepare_r`: segments for a body of the clamped length, behind the place of its
      header, or none when the record does not fit. */
  method DmaInPrepareR(f: Kfifo, sgl: array<Segment>, phys: nat -> nat, vaddr: nat, nents: nat, len: nat, rs: nat)
      returns (r: Listed)
    requires RecordRing(f, rs) && nents > 0 && len < U32 && ToNextPage(vaddr, f.data.Length) < U32
    modifies sgl
    ensures var want, off := MaxR(len, rs), Wrap32(f.inIdx + rs);
            if want + rs > f.mask + 1 - f.Count() then r == Listed(0)
            else
              && Bytes(f.Slot(off), 1) < f.data.Length
              && (r.Overrun? <==>
                    Overruns(phys, vaddr, f.data.Length, Bytes(f.Slot(off), 1), want, nents, sgl.Length))
              && Fills(sgl[..], r, Requested(f, phys, vaddr, off, want), Room(nents, sgl.Length))
  {
    hide Live, Residue, Bytes, WellFormed, Overruns, Fills, RingBytes;
    var want := MaxR(len, rs);
    if Wrap32(want + rs) > f.Unused() { return Listed(0); }
    BytesOne(want);
    r := SetupSgl(f, sgl, phys, vaddr, nents, want, Wrap32(f.inIdx + rs));
  }

  /** `__kfifo_dma_in_finish_r` after a device wrote `dev` through the segments of a body of at most
      `want` bytes: the first `len` bytes of it are one more record. */
  method DmaInFinishR(f: Kfifo, len: nat, rs: nat, ghost phys: nat -> nat, ghost vaddr: nat,
                      ghost segs: seq<Segment>, ghost want: nat, ghost room: nat, ghost mem: int -> Byte,
                      ghost before: seq<Byte>, ghost dev: seq<Byte>)
    requires Filled(f, Wrap32(f.inIdx + rs), want, phys, vaddr, segs, room, mem, before, dev)
    requires f.esize == 1 && HeaderSize(rs) && WellFormed(LiveIn(f, before), rs)
    requires f.Count() + rs + want <= f.mask + 1 && want < Limit(rs) && len <= |dev|
    modifies f`inIdx, f.data
    ensures RecordRing(f, rs)
    ensures Queue(f, rs) == Decode(old(LiveIn(f, before)), rs) + [dev[..len]]
  {
    hide Live, Residue, Bytes, WellFormed, Decode, Wrap32, Poke, Advance, Filled;
    BodyInPlace(f, rs, phys, vaddr, segs, want, room, mem, before, dev);
    ghost var c := LiveIn(f, before);
    var n := MaxR(len, rs);
    PokeN(f, n, rs);
    PokeBehindFirst(before, f.Slot(f.inIdx), Header(n, rs), dev);
    PublishPart(f, before, dev, n, rs);
    AppendRecord(c, dev[..n], rs);
  }

  /** Before the header is written, the ring is the old one with `dev` behind the header's place. */
  lemma BodyInPlace(f: Kfifo, rs: nat, phys: nat -> nat, vaddr: nat, segs: seq<Segment>, want: nat, room: nat,
                    mem: int -> Byte, before: seq<Byte>, dev: seq<Byte>)
    requires Filled(f, Wrap32(f.inIdx + rs), want, phys, vaddr, segs, room, mem, before, dev)
    requires f.esize == 1 && HeaderSize(rs) && f.Count() + rs + want <= f.mask + 1
    ensures f.Valid() && |dev| <= want && f.data.Length == f.mask + 1 == |before|
    ensures f.data[..] == Poke(before, Advance(f.Slot(f.inIdx), rs, f.mask + 1), dev)
  {
    hide Live, Residue, Bytes, Wrap32, Poke, Advance, Covers, Distinct, Range, Ring, Written, RingBytes;
    BytesOne(want);
    BytesOne(f.mask + 1);
    SlotAfter(f.inIdx, rs, f.mask);
    BytesOne(f.Slot(Wrap32(f.inIdx + rs)));
    DeviceStores(f, phys, vaddr, segs, mem, before, dev, f.Slot(Wrap32(f.inIdx + rs)), want, room);
  }

  /** Publishes the header and the first `n` of the bytes behind it. */
  method PublishPart(f: Kfifo, ghost before: seq<Byte>, ghost dev: seq<Byte>, n: nat, rs: nat)
    requires f.Valid() && f.esize == 1 && HeaderSize(rs) && n <= |dev|
    requires f.Count() + rs + |dev| <= f.mask + 1 == f.data.Length == |before|
    requires f.data[..] == Poke(before, f.Slot(f.inIdx), Header(n, rs) + dev)
    modifies f`inIdx
    ensures f.Valid()
    ensures f.Contents() ==
              Live(before, f.mask + 1, 1, f.Slot(f.outIdx), old(f.Count())) + Record(dev[..n], rs)
  {
    hide Live, Poke, Residue, Wrap32, Bytes, Header;
    BytesOne(n + rs);
    BytesOne(f.Slot(f.inIdx));
    BytesOne(f.mask + 1 - f.Count());
    f.Publish(before, Header(n, rs) + dev, n + rs);
    assert (Header(n, rs) + dev)[..n + rs] == Header(n, rs) + dev[..n];
  }

  // ---------------------------------------------------------------- out

  /** What `__kfifo_dma_out_prepare_r` names is a part of the head record exactly when the clamped
      length does not exceed the record's. */
  lemma PartOfHead(c: seq<Byte>, rs: nat, len: nat)
    requires HeaderSize(rs) && WellFormed(c, rs) && c != [] && rs + len <= |c|
    ensures c[rs..rs + len] <= Decode(c, rs)[0] <==> len <= |Decode(c, rs)[0]|
  {
    hide WellFormed, Decode, HeaderValue, Record;
    HeadRecord(c, rs);
    var n := HeaderValue(c, rs);
    if len <= n { assert c[rs..rs + n][..len] == c[rs..rs + len]; }
  }

  /** Asked for two bytes of a record of one, it names the next record's header as well. */
  lemma NextHeader(a: Byte, b: Byte)
    ensures var c: seq<Byte> := [1, a, 1, b];
            WellFormed(c, 1) && Decode(c, 1) == [[a], [b]] && c[1..3] == [a, 1]
  {
    var c: seq<Byte> := [1, a, 1, b];
    NoRecords(1);
    ConsRecord([b], [], 1);
    ConsRecord([a], [1, b], 1);
    assert Record([b], 1) + [] == [1, b] && Record([a], 1) + [1, b] == c;
  }

  /** `__kfifo_dma_out_prepare_r` compares the length with the whole ring, not with the head record.
      A device that reads through the segments stays inside the head record exactly when the
      clamped length does. */
  method DmaOutPrepareR(f: Kfifo, sgl: array<Segment>, phys: nat -> nat, vaddr: nat, nents: nat, len: nat, rs: nat,
                        ghost mem: int -> Byte) returns (r: Listed)
    requires RecordRing(f, rs) && nents > 0 && len < U32 && ToNextPage(vaddr, f.data.Length) < U32
    requires Backs(mem, phys, vaddr, f.data[..])
    modifies sgl
    ensures |f.Contents()| == f.Count()
    ensures var want, off := MaxR(len, rs), Wrap32(f.outIdx + rs);
            if want + rs > f.Count() then r == Listed(0)
            else
              && Queue(f, rs) != [] && Bytes(f.Slot(off), 1) < f.data.Length
              && (r.Overrun? <==>
                    Overruns(phys, vaddr, f.data.Length, Bytes(f.Slot(off), 1), want, nents, sgl.Length))
              && Sends(mem, sgl[..], r, f.Contents()[rs..rs + want], Room(nents, sgl.Length))
              && (f.Contents()[rs..rs + want] <= Queue(f, rs)[0] <==> want <= |Queue(f, rs)[0]|)
  {
    hide Live, Residue, Bytes, WellFormed, Decode, Overruns, Fills, Sends, RingBytes, Backs, Ring;
    BytesOne(f.Count());
    var want := MaxR(len, rs);
    if Wrap32(want + rs) > f.Count() { return Listed(0); }
    PartOfHead(f.Contents(), rs, want);
    BytesOne(want);
    var off := Wrap32(f.outIdx + rs);
    r := SetupSgl(f, sgl, phys, vaddr, nents, want, off);
    PartOfContents(f, rs, want);
    SendsPart(f, phys, vaddr, mem, off, want, sgl[..], r, Room(nents, sgl.Length));
  }

  lemma SendsPart(f: Kfifo, phys: nat -> nat, vaddr: nat, mem: int -> Byte, off: nat, want: nat,
                  sgl: seq<Segment>, r: Listed, room: nat)
    requires f.Valid() && f.esize == 1 && want <= f.mask + 1 && Backs(mem, phys, vaddr, f.data[..])
    requires Fills(sgl, r, Requested(f, phys, vaddr, off, want), room)
    ensures Sends(mem, sgl, r, Live(f.data[..], f.mask + 1, 1, f.Slot(off), want), room)
  {
    hide Residue, Bytes, Fills, Sends, RingBytes, Backs, Ring;
    BytesOrder(f.mask + 1, f.Slot(off), 1);
    BytesOrder(want, f.mask + 1, 1);
    SendsRing(mem, phys, vaddr, f.data[..], Bytes(f.Slot(off), 1), Bytes(want, 1), sgl, r, room);
  }

  /** `__kfifo_dma_out_finish_r` drops the head record, whatever was read of it; like
      `__kfifo_skip_r` it does not look whether there is one. */
  method DmaOutFinishR(f: Kfifo, rs: nat)
    requires RecordRing(f, rs)
    modifies f`outIdx
    ensures f.Valid() <==> old(Queue(f, rs)) != []
    ensures old(Queue(f, rs)) != [] ==>
              RecordRing(f, rs) && Queue(f, rs) == old(Queue(f, rs))[1..]
  {
    SkipR(f, rs);
  }
}
