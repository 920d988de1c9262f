/** The scatter-gather layer of `src/fifo.c`: a part of the ring described as physical segments.

    `phys` gives the physical address of each virtual page; nothing is assumed about it.  A list of
    segments is judged by the physical bytes it names, in order (`Flatten`), against the physical
    addresses of the requested part of the ring. */
module KfifoSgl {
  import opened Machine
  import opened Rings
  import opened KfifoCore

  const PAGE: nat := 4096

  /** A scatterlist entry: the physical address of its page, an offset and a length. */
  datatype Segment = Segment(base: nat, offset: nat, length: nat) {
    function Start(): nat { base + offset }
    function End(): nat { base + offset + length }
  }

  /** Physical address of the byte at virtual address `a`. */
  function PhysByte(phys: nat -> nat, a: nat): nat {
    phys(a / PAGE) + a % PAGE
  }

  /** Physical addresses of the `n` bytes from virtual address `a` on. */
  ghost function Range(phys: nat -> nat, a: nat, n: nat): (r: seq<int>)
    ensures |r| == n
  {
    seq(n, (i: nat) => PhysByte(phys, a + i))
  }

  /** `n` consecutive physical addresses. */
  ghost function Span(start: nat, n: nat): (r: seq<int>)
    ensures |r| == n
  {
    seq(n, (i: nat) => start + i)
  }

  /** The physical bytes named by a list of segments. */
  ghost function Flatten(segs: seq<Segment>): seq<int> {
    if segs == [] then []
    else Flatten(segs[..|segs| - 1]) + Span(segs[|segs| - 1].Start(), segs[|segs| - 1].length)
  }

  lemma FlattenSnoc(segs: seq<Segment>, s: Segment)
    ensures Flatten(segs + [s]) == Flatten(segs) + Span(s.Start(), s.length)
  {
    assert (segs + [s])[..|segs|] == segs;
  }

  lemma FlattenEmpty(a: seq<Segment>)
    requires a == []
    ensures Flatten(a) == []
  {}

  lemma {:induction false} FlattenConcat(a: seq<Segment>, b: seq<Segment>)
    ensures Flatten(a + b) == Flatten(a) + Flatten(b)
    decreases |b|
  {
    hide Flatten, Span;
    if b == [] {
      assert a + b == a && Flatten(b) == [] by { FlattenEmpty(b); }
    } else {
      var b', s := b[..|b| - 1], b[|b| - 1];
      FlattenConcat(a, b');
      assert a + b == (a + b') + [s] && b == b' + [s];
      FlattenSnoc(a + b', s);
      FlattenSnoc(b', s);
    }
  }

  lemma RangeSplit(phys: nat -> nat, a: nat, m: nat, n: nat)
    ensures Range(phys, a, m + n) == Range(phys, a, m) + Range(phys, a + m, n)
  {}

  /** The `k` pages behind virtual page `page` are physically contiguous with it. */
  ghost predicate Contiguous(phys: nat -> nat, page: nat, k: nat) {
    forall j: nat | j <= k :: phys(page + j) == phys(page) + PAGE * j
  }

  /** Inside contiguous pages one segment names the right bytes. */
  lemma SpanIsRange(phys: nat -> nat, page: nat, off: nat, k: nat, n: nat)
    requires Contiguous(phys, page, k) && off + n <= PAGE * (k + 1)
    ensures Span(phys(page) + off, n) == Range(phys, PAGE * page + off, n)
  {
    var span, range := Span(phys(page) + off, n), Range(phys, PAGE * page + off, n);
    forall i: nat | i < n ensures span[i] == range[i] {
      SpanByte(phys, page, off, k, i);
    }
    assert |span| == |range| && forall i :: 0 <= i < |span| ==> span[i] == range[i];
  }

  lemma SpanByte(phys: nat -> nat, page: nat, off: nat, k: nat, i: nat)
    requires Contiguous(phys, page, k) && off + i < PAGE * (k + 1)
    ensures PhysByte(phys, PAGE * page + off + i) == phys(page) + off + i
  {
    var j: nat := (off + i) / PAGE;
    assert (PAGE * page + off + i) / PAGE == page + j && j <= k;
    assert phys(page + j) == phys(page) + PAGE * j;
  }

  /** Neighbouring segments are never physically adjacent: none could have been merged. */
  ghost predicate Coalesced(segs: seq<Segment>) {
    forall i: nat | i + 1 < |segs| :: segs[i].End() != segs[i + 1].Start()
  }

  /** `segs` names the first bytes of `want`, and all of them unless the list is full. */
  ghost predicate Covers(segs: seq<Segment>, want: seq<int>, nents: nat) {
    && |segs| <= nents
    && Flatten(segs) <= want
    && (|segs| < nents ==> Flatten(segs) == want)
  }

  /** The finished segments name the first `done` bytes, and the next one starts elsewhere. */
  ghost predicate Finished(segs: seq<Segment>, phys: nat -> nat, buf: nat, done: nat, next: nat) {
    && Flatten(segs) == Range(phys, buf, done)
    && Coalesced(segs)
    && (segs != [] ==> segs[|segs| - 1].End() != next)
  }

  /** Closing the current segment after `m` bytes. */
  lemma CloseSegment(segs: seq<Segment>, phys: nat -> nat, buf: nat, done: nat,
                     page: nat, off: nat, k: nat, m: nat, next: nat)
    requires Finished(segs, phys, buf, done, phys(page) + off)
    requires PAGE * page + off == buf + done
    requires Contiguous(phys, page, k) && off + m <= PAGE * (k + 1)
    ensures var segs' := segs + [Segment(phys(page), off, m)];
            && Flatten(segs') == Range(phys, buf, done + m)
            && Coalesced(segs')
            && (next != phys(page) + off + m ==> Finished(segs', phys, buf, done + m, next))
  {
    hide Range, Span, Contiguous, Flatten;
    SpanIsRange(phys, page, off, k, m);
    RangeSplit(phys, buf, done, m);
    FlattenSnoc(segs, Segment(phys(page), off, m));
  }

  /** A shorter range is the front of a longer one. */
  lemma RangePrefix(phys: nat -> nat, a: nat, m: nat, n: nat)
    requires m <= n
    ensures Range(phys, a, m) <= Range(phys, a, n)
  {
    RangeSplit(phys, a, m, n - m);
  }

  // ---------------------------------------------------------------- walking the pages

  /** Where physical contiguity ends among the `k` page boundaries behind `page`. */
  ghost function Breaks(phys: nat -> nat, page: nat, k: nat): (n: nat)
    ensures n <= k
  {
    if k == 0 then 0
    else Breaks(phys, page, k - 1) + if phys(page + k) != phys(page + k - 1) + PAGE then 1 else 0
  }

  lemma {:induction false} BreaksGrow(phys: nat -> nat, page: nat, j: nat, k: nat)
    requires j <= k
    ensures Breaks(phys, page, j) <= Breaks(phys, page, k)
    decreases k
  {
    if j < k { BreaksGrow(phys, page, j, k - 1); }
  }

  /** How many segments `len` bytes at virtual address `buf` need.  A range that ends with its page
      needs one more when the next page is elsewhere: the last segment is then empty. */
  ghost function Segments(phys: nat -> nat, buf: nat, len: nat): (n: nat)
    ensures n >= 1
  {
    Breaks(phys, buf / PAGE, (buf + len) / PAGE - buf / PAGE) + 1
  }

  /** The distance from `buf` to the first page boundary behind `len` bytes. */
  function ToNextPage(buf: nat, len: nat): (d: nat)
    ensures len < d <= len + PAGE
  {
    PAGE * ((buf + len) / PAGE + 1) - buf
  }

  /** The loop's 32-bit guard compares rightly exactly while its right-hand side does not wrap. */
  lemma GuardExact(len: nat, l: nat, off: nat)
    requires len < U32 && off < PAGE && l < U32 && l + PAGE - off <= len + PAGE
    ensures (len >= Wrap32(Wrap32(l + PAGE) - off) <==> len >= l + PAGE - off) <==> l + PAGE - off < U32
  {
    var v := l + PAGE - off;
    assert Wrap32(Wrap32(l + PAGE) - off) == Wrap32(v) by {
      Wrap32Residue(l + PAGE);
      Wrap32Residue(Wrap32(l + PAGE) - off);
      Wrap32Residue(v);
    }
    assert Wrap32(v) == if v < U32 then v else v - U32;
  }

  /** The state of the page loop: `segs` are finished; the current segment starts at `off` in `page`
      and has run through `k` more pages; `rem` bytes are not in a finished segment. */
  ghost predicate Walking(segs: seq<Segment>, phys: nat -> nat, buf: nat, len: nat,
                          rem: nat, page: nat, off: nat, k: nat) {
    && off < PAGE && rem <= len && PAGE * page + off == buf + (len - rem) && PAGE * k <= rem + off
    && page + k >= buf / PAGE
    && Contiguous(phys, page, k)
    && Finished(segs, phys, buf, len - rem, phys(page) + off)
    && |segs| == Breaks(phys, buf / PAGE, page + k - buf / PAGE)
  }

  lemma WalkStarts(phys: nat -> nat, buf: nat, len: nat)
    ensures Walking([], phys, buf, len, len, buf / PAGE, buf % PAGE, 0)
  {
    assert Flatten([]) == Range(phys, buf, 0);
  }

  /** The next page follows on: the segment goes on. */
  lemma WalkOn(segs: seq<Segment>, phys: nat -> nat, buf: nat, len: nat, rem: nat, page: nat, off: nat, k: nat)
    requires Walking(segs, phys, buf, len, rem, page, off, k) && PAGE * (k + 1) - off <= rem
    requires phys(page + k + 1) == phys(page) + PAGE * (k + 1)
    ensures Walking(segs, phys, buf, len, rem, page, off, k + 1)
  {
    hide Finished;
    assert phys(page + k) == phys(page) + PAGE * k;
    assert page + (k + 1) - buf / PAGE == (page + k - buf / PAGE) + 1;
  }

  /** The next page is elsewhere: the segment is finished and another one starts. */
  lemma WalkBreaks(segs: seq<Segment>, phys: nat -> nat, buf: nat, len: nat, rem: nat, page: nat, off: nat, k: nat)
    requires Walking(segs, phys, buf, len, rem, page, off, k) && PAGE * (k + 1) - off <= rem
    requires phys(page + k + 1) != phys(page) + PAGE * (k + 1)
    ensures var m := PAGE * (k + 1) - off;
            Walking(segs + [Segment(phys(page), off, m)], phys, buf, len, rem - m, page + k + 1, 0, 0)
  {
    hide Finished, Range, Flatten;
    assert phys(page + k) == phys(page) + PAGE * k;
    assert page + k + 1 + 0 - buf / PAGE == (page + k - buf / PAGE) + 1;
    CloseSegment(segs, phys, buf, len - rem, page, off, k, PAGE * (k + 1) - off, phys(page + k + 1));
  }

  /** What is finished is a part of what was asked for. */
  lemma WalkCovers(segs: seq<Segment>, phys: nat -> nat, buf: nat, len: nat, rem: nat, page: nat, off: nat, k: nat)
    requires Walking(segs, phys, buf, len, rem, page, off, k)
    ensures Flatten(segs) <= Range(phys, buf, len) && Coalesced(segs)
    ensures |segs| < Segments(phys, buf, len)
  {
    hide Range, Flatten, Contiguous, Breaks, Coalesced;
    RangePrefix(phys, buf, len - rem, len);
    PagesWalked(buf, len, rem, page, off, k);
    BreaksGrow(phys, buf / PAGE, page + k - buf / PAGE, (buf + len) / PAGE - buf / PAGE);
  }

  lemma PagesWalked(buf: nat, len: nat, rem: nat, page: nat, off: nat, k: nat)
    requires off < PAGE && rem <= len && PAGE * page + off == buf + (len - rem) && PAGE * k <= rem + off
    ensures page + k <= (buf + len) / PAGE
    ensures rem < PAGE * (k + 1) - off ==> page + k == (buf + len) / PAGE
  {
    assert PAGE * (page + k) <= buf + len;
  }

  /** The rest fits the current segment. */
  lemma WalkEnds(segs: seq<Segment>, phys: nat -> nat, buf: nat, len: nat, rem: nat, page: nat, off: nat, k: nat)
    requires Walking(segs, phys, buf, len, rem, page, off, k) && rem < PAGE * (k + 1) - off
    ensures var segs' := segs + [Segment(phys(page), off, rem)];
            && Flatten(segs') == Range(phys, buf, len) && Coalesced(segs')
            && |segs'| == Segments(phys, buf, len)
  {
    hide Range, Flatten, Contiguous, Breaks, Coalesced, Finished;
    PagesWalked(buf, len, rem, page, off, k);
    CloseSegment(segs, phys, buf, len - rem, page, off, k, rem, 0);
  }

  /** The guard of the page loop, in 32 bits. */
  lemma GuardInRange(buf: nat, len: nat, rem: nat, page: nat, off: nat, k: nat)
    requires off < PAGE && rem <= len && PAGE * page + off == buf + (len - rem) && PAGE * k <= rem + off
    requires ToNextPage(buf, len) < U32
    ensures PAGE * (k + 1) - off < U32 && PAGE * k < U32
    ensures PAGE * (k + 1) - off <= rem ==> PAGE * (k + 1) < U32
    ensures rem >= Wrap32(Wrap32(PAGE * k + PAGE) - off) <==> rem >= PAGE * (k + 1) - off
  {
    PagesWalked(buf, len, rem, page, off, k);
    assert PAGE * (page + k + 1) <= PAGE * ((buf + len) / PAGE + 1);
    assert PAGE * (k + 1) - off <= ToNextPage(buf, len);
    if PAGE * (k + 1) - off <= rem { PagesWalked(buf, len, rem, page, off, k + 1); }
    GuardExact(rem, PAGE * k, off);
  }

  /** `setup_sgl_buf`: fills `sgl` from entry `at` on.  A new segment starts at each physical
      discontinuity between pages.  It stops after `nents` entries, or with the last entry of the
      list. */
  method SetupSglBuf(sgl: array<Segment>, at: nat, phys: nat -> nat, buf: nat, nents: nat, len: nat)
      returns (n: nat)
    requires at <= sgl.Length && (nents > 0 && len > 0 ==> at < sgl.Length)
    requires ToNextPage(buf, len) < U32
    modifies sgl
    ensures at + n <= sgl.Length && sgl[..at] == old(sgl[..at])
    ensures n == if nents == 0 || len == 0 then 0
                 else Min(Min(nents, sgl.Length - at), Segments(phys, buf, len))
    ensures Covers(sgl[at..at + n], Range(phys, buf, len), Min(nents, sgl.Length - at))
    ensures Coalesced(sgl[at..at + n])
  {
    hide Range, Flatten, Coalesced, Walking, Segments, Wrap32, ToNextPage;
    n := 0;
    WalkStarts(phys, buf, len);
    WalkCovers([], phys, buf, len, len, buf / PAGE, buf % PAGE, 0);
    assert sgl[at..at + n] == [];
    if nents == 0 || len == 0 {
      NothingAsked(phys, buf, len);
      return;
    }
    var page: nat, off: nat, l: nat, rem: nat, ptr: nat := buf / PAGE, buf % PAGE, 0, len, buf;
    ghost var k: nat := 0;
    while rem >= Wrap32(Wrap32(l + PAGE) - off)
      invariant n < Min(nents, sgl.Length - at) && sgl[..at] == old(sgl[..at])
      invariant l == PAGE * k && ptr / PAGE == page + k
      invariant Walking(sgl[at..at + n], phys, buf, len, rem, page, off, k)
      invariant off < PAGE && rem <= len && PAGE * page + off == buf + (len - rem) && PAGE * k <= rem + off
      decreases rem - l + off
    {
      GuardInRange(buf, len, rem, page, off, k);
      Wrap32Small(l + PAGE);
      l := Wrap32(l + PAGE);
      ptr := ptr + PAGE;
      var npage := ptr / PAGE;
      if phys(page) != phys(npage) - l {
        EmitBreak(sgl, at, n, phys, buf, len, rem, page, off, l, k);
        n := n + 1;
        if n == nents || at + n == sgl.Length { return; }
        page := npage;
        rem := rem - (l - off);
        l, off, k := 0, 0, 0;
      } else {
        WalkOn(sgl[at..at + n], phys, buf, len, rem, page, off, k);
        k := k + 1;
      }
    }
    GuardInRange(buf, len, rem, page, off, k);
    WalkEnds(sgl[at..at + n], phys, buf, len, rem, page, off, k);
    Emit(sgl, at, n, Segment(phys(page), off, rem));
    n := n + 1;
  }

  /** Lists the current segment, which ends at a physical discontinuity. */
  method EmitBreak(sgl: array<Segment>, at: nat, n: nat, phys: nat -> nat, ghost buf: nat, ghost len: nat,
                   ghost rem: nat, page: nat, off: nat, l: nat, ghost k: nat)
    requires at + n < sgl.Length && l == PAGE * (k + 1) && off < PAGE && l - off <= rem
    requires Walking(sgl[at..at + n], phys, buf, len, rem, page, off, k)
    requires phys(page + k + 1) != phys(page) + l
    modifies sgl
    ensures sgl[..at] == old(sgl[..at])
    ensures Walking(sgl[at..at + (n + 1)], phys, buf, len, rem - (l - off), page + k + 1, 0, 0)
    ensures Flatten(sgl[at..at + (n + 1)]) <= Range(phys, buf, len) && Coalesced(sgl[at..at + (n + 1)])
    ensures n + 1 < Segments(phys, buf, len)
  {
    hide Range, Flatten, Coalesced, Walking, Segments;
    WalkBreaks(sgl[at..at + n], phys, buf, len, rem, page, off, k);
    Emit(sgl, at, n, Segment(phys(page), off, l - off));
    WalkCovers(sgl[at..at + (n + 1)], phys, buf, len, rem - (l - off), page + k + 1, 0, 0);
  }

  lemma NothingAsked(phys: nat -> nat, buf: nat, len: nat)
    ensures len == 0 ==> Flatten([]) == Range(phys, buf, len)
  {}

  /** `sg_set_page` on the next entry. */
  method Emit(sgl: array<Segment>, at: nat, n: nat, s: Segment)
    requires at + n < sgl.Length
    modifies sgl
    ensures sgl[..at] == old(sgl[..at])
    ensures sgl[at..at + (n + 1)] == old(sgl[at..at + n]) + [s]
  {
    sgl[at + n] := s;
  }

  // ---------------------------------------------------------------- the ring

  /** Physical addresses of a part of a ring whose buffer lies at virtual address `vaddr`. */
  ghost function RingBytes(phys: nat -> nat, vaddr: nat, total: nat, at: nat, n: nat): seq<int>
    requires at < total && n <= total
  {
    Ring(Range(phys, vaddr, total), at, n)
  }

  lemma RingBytesInPieces(phys: nat -> nat, vaddr: nat, total: nat, at: nat, n: nat, l: nat)
    requires at < total && n <= total && l == Min(n, total - at)
    ensures RingBytes(phys, vaddr, total, at, n) == Range(phys, vaddr + at, l) + Range(phys, vaddr, n - l)
  {
    RangeSplit(phys, vaddr, at, total - at);
    RangeSplit(phys, vaddr + at, l, total - at - l);
    RangeSplit(phys, vaddr, n - l, total - (n - l));
  }

  /** Two lists one behind the other cover two ranges one behind the other. */
  lemma CoversConcat(a: seq<Segment>, b: seq<Segment>, first: seq<int>, second: seq<int>, nents: nat)
    requires Covers(a, first, nents) && Covers(b, second, nents - |a|)
    ensures Covers(a + b, first + second, nents)
  {
    FlattenConcat(a, b);
    if |a| < nents {
      assert Flatten(a + b) == first + Flatten(b);
    } else {
      assert b == [] && Flatten(a + b) == Flatten(a);
    }
  }

  /** Where a list ends: with the last entry the caller offers, or with its last entry. */
  function Room(nents: nat, entries: nat): nat { Min(nents, entries) }

  /** What `setup_sgl` comes to: a number of entries, or a store behind the last entry of the list. */
  datatype Listed = Listed(n: nat) | Overrun

  /** The entries listed cover `want`. */
  ghost predicate Fills(sgl: seq<Segment>, r: Listed, want: seq<int>, room: nat) {
    r.Listed? ==> r.n <= |sgl| && Covers(sgl[..r.n], want, room)
  }

  /** `setup_sgl` goes on behind the entries the first piece took, whether or not there are more.  It
      leaves a list that has fewer entries than `nents` exactly when the part of the ring wraps and
      its first piece takes them all, or when there are none. */
  ghost predicate Overruns(phys: nat -> nat, vaddr: nat, total: nat, at: nat, bytes: nat, nents: nat, entries: nat)
    requires at < total
  {
    var l := Min(bytes, total - at);
    && entries < nents && bytes > 0
    && (entries == 0 || (bytes > l && Segments(phys, vaddr + at, l) >= entries))
  }

  /** A list of one entry, offered as two, and a part of a ring that wraps: the second piece is
      stored behind the list. */
  lemma ShortList(phys: nat -> nat, vaddr: nat)
    ensures Overruns(phys, vaddr, 2, 1, 2, 2, 1)
  {}

  /** Physical addresses of `len` elements from free-running index `off` on. */
  ghost function Requested(f: Kfifo, phys: nat -> nat, vaddr: nat, off: nat, len: nat): seq<int>
    requires f.Valid() && len <= f.mask + 1
    reads f
  {
    BytesOrder(f.mask + 1, f.Slot(off), f.esize);
    BytesOrder(len, f.mask + 1, f.esize);
    RingBytes(phys, vaddr, f.data.Length, Bytes(f.Slot(off), f.esize), Bytes(len, f.esize))
  }

  /** `setup_sgl`: segments for `len` elements from free-running index `off` on, across the end of
      the buffer. */
  method SetupSgl(f: Kfifo, sgl: array<Segment>, phys: nat -> nat, vaddr: nat, nents: nat, len: nat, off: nat)
      returns (r: Listed)
    requires f.Valid() && len <= f.mask + 1 && ToNextPage(vaddr, f.data.Length) < U32
    modifies sgl
    ensures Bytes(f.Slot(off), f.esize) < f.data.Length && Bytes(len, f.esize) <= f.data.Length
    ensures var at, bytes := Bytes(f.Slot(off), f.esize), Bytes(len, f.esize);
            && (r.Overrun? <==> Overruns(phys, vaddr, f.data.Length, at, bytes, nents, sgl.Length))
            && Fills(sgl[..], r, Requested(f, phys, vaddr, off, len), Room(nents, sgl.Length))
  {
    hide Bytes, Residue;
    var at, bytes, l := f.Pieces(len, off);
    r := SetupPieces(sgl, phys, vaddr, f.data.Length, nents, at, bytes, l);
  }

  method SetupPieces(sgl: array<Segment>, phys: nat -> nat, vaddr: nat, total: nat, nents: nat,
                     at: nat, bytes: nat, l: nat) returns (r: Listed)
    requires at < total && bytes <= total && l == Min(bytes, total - at) && ToNextPage(vaddr, total) < U32
    modifies sgl
    ensures r.Overrun? <==> Overruns(phys, vaddr, total, at, bytes, nents, sgl.Length)
    ensures Fills(sgl[..], r, RingBytes(phys, vaddr, total, at, bytes), Room(nents, sgl.Length))
  {
    hide Range, Covers, RingBytes, Coalesced, Segments, ToNextPage;
    SmallerPiece(vaddr, total, at, l);
    SmallerPiece(vaddr, total, 0, bytes - l);
    if nents > 0 && l > 0 && sgl.Length == 0 { return Overrun; }
    var n := SetupSglBuf(sgl, 0, phys, vaddr + at, nents, l);
    if n < nents && bytes - l > 0 && n == sgl.Length { return Overrun; }
    ghost var first := sgl[0..0 + n];
    var m := SetupSglBuf(sgl, n, phys, vaddr, nents - n, bytes - l);
    RingBytesInPieces(phys, vaddr, total, at, bytes, l);
    CoversConcat(first, sgl[n..n + m], Range(phys, vaddr + at, l), Range(phys, vaddr, bytes - l),
                 Room(nents, sgl.Length));
    assert sgl[..][..n + m] == first + sgl[n..n + m];
    r := Listed(n + m);
  }

  /** A part of the buffer needs no more address space than the whole. */
  lemma SmallerPiece(vaddr: nat, total: nat, at: nat, n: nat)
    requires at + n <= total
    ensures ToNextPage(vaddr + at, n) <= ToNextPage(vaddr, total)
  {
    assert (vaddr + at + n) / PAGE <= (vaddr + total) / PAGE;
  }

  /** What a device reads from physical memory `mem`. */
  ghost function Fetch(mem: int -> Byte, addrs: seq<int>): (r: seq<Byte>)
    ensures |r| == |addrs|
  {
    seq(|addrs|, i requires 0 <= i < |addrs| => mem(addrs[i]))
  }

  /** Physical memory holds the ring's buffer. */
  ghost predicate Backs(mem: int -> Byte, phys: nat -> nat, vaddr: nat, buf: seq<Byte>) {
    Fetch(mem, Range(phys, vaddr, |buf|)) == buf
  }

  lemma FetchRing(mem: int -> Byte, addrs: seq<int>, at: nat, n: nat)
    requires at < |addrs| && n <= |addrs|
    ensures Fetch(mem, Ring(addrs, at, n)) == Ring(Fetch(mem, addrs), at, n)
  {
    hide Ring;
    var left, right := Fetch(mem, Ring(addrs, at, n)), Ring(Fetch(mem, addrs), at, n);
    forall i: nat | i < n ensures left[i] == right[i] {
      RingAt(addrs, at, n, i);
      RingAt(Fetch(mem, addrs), at, n, i);
    }
    assert left == right;
  }

  lemma FetchPrefix(mem: int -> Byte, a: seq<int>, b: seq<int>)
    requires a <= b
    ensures Fetch(mem, a) <= Fetch(mem, b)
  {}

  /** `__kfifo_dma_out_prepare`: a device that reads through the segments reads the live bytes from
      the front, all that were asked for when the list was long enough. */
  method DmaOutPrepare(f: Kfifo, sgl: array<Segment>, phys: nat -> nat, vaddr: nat, nents: nat, len: nat,
                       ghost mem: int -> Byte) returns (r: Listed)
    requires f.Valid() && len < U32 && ToNextPage(vaddr, f.data.Length) < U32
    requires Backs(mem, phys, vaddr, f.data[..])
    modifies sgl
    ensures Bytes(f.Slot(f.outIdx), f.esize) < f.data.Length
    ensures var want := Bytes(Min(len, f.Count()), f.esize);
            && want <= |f.Contents()|
            && (r.Overrun? <==>
                  Overruns(phys, vaddr, f.data.Length, Bytes(f.Slot(f.outIdx), f.esize), want, nents, sgl.Length))
            && Sends(mem, sgl[..], r, f.Contents()[..want], Room(nents, sgl.Length))
  {
    hide Bytes, Residue, Range, Flatten, Ring, Overruns, Fills, Sends, RingBytes;
    var want := Min(len, f.Count());
    r := SetupSgl(f, sgl, phys, vaddr, nents, want, f.outIdx);
    LiveFront(f.data[..], f.mask + 1, f.esize, f.Slot(f.outIdx), f.Count(), want);
    SendsRing(mem, phys, vaddr, f.data[..], Bytes(f.Slot(f.outIdx), f.esize), Bytes(want, f.esize),
              sgl[..], r, Room(nents, sgl.Length));
  }

  /** Reading through the listed entries yields the front of `bytes`, all of it unless the list is
      full. */
  ghost predicate Sends(mem: int -> Byte, sgl: seq<Segment>, r: Listed, bytes: seq<Byte>, room: nat) {
    r.Listed? ==>
      && r.n <= |sgl| && r.n <= room
      && Fetch(mem, Flatten(sgl[..r.n])) <= bytes
      && (r.n < room ==> Fetch(mem, Flatten(sgl[..r.n])) == bytes)
  }

  lemma SendsRing(mem: int -> Byte, phys: nat -> nat, vaddr: nat, buf: seq<Byte>, at: nat, n: nat,
                  sgl: seq<Segment>, r: Listed, room: nat)
    requires at < |buf| && n <= |buf| && Backs(mem, phys, vaddr, buf)
    requires Fills(sgl, r, RingBytes(phys, vaddr, |buf|, at, n), room)
    ensures Sends(mem, sgl, r, Ring(buf, at, n), room)
  {
    hide Range, Flatten, Ring;
    if r.Listed? {
      FetchRing(mem, Range(phys, vaddr, |buf|), at, n);
      FetchPrefix(mem, Flatten(sgl[..r.n]), RingBytes(phys, vaddr, |buf|, at, n));
    }
  }

  /** `__kfifo_dma_in_prepare`: the segments name free cells, from the one `in` points to on. */
  method DmaInPrepare(f: Kfifo, sgl: array<Segment>, phys: nat -> nat, vaddr: nat, nents: nat, len: nat)
      returns (r: Listed)
    requires f.Valid() && len < U32 && ToNextPage(vaddr, f.data.Length) < U32
    modifies sgl
    ensures Bytes(f.Slot(f.inIdx), f.esize) < f.data.Length
    ensures var at, free := Bytes(f.Slot(f.inIdx), f.esize), Bytes(Min(len, f.mask + 1 - f.Count()), f.esize);
            && |f.Contents()| + free <= f.data.Length
            && (r.Overrun? <==> Overruns(phys, vaddr, f.data.Length, at, free, nents, sgl.Length))
            && Fills(sgl[..], r, Requested(f, phys, vaddr, f.inIdx, Min(len, f.mask + 1 - f.Count())),
                     Room(nents, sgl.Length))
  {
    hide Bytes, Residue, Wrap32, Fills, RingBytes, Live, Overruns;
    var want := Min(len, f.Unused());
    r := SetupSgl(f, sgl, phys, vaddr, nents, want, f.inIdx);
    BytesAdd(f.Count(), want, f.esize);
    BytesOrder(f.Count() + want, f.mask + 1, f.esize);
  }

  // ---------------------------------------------------------------- what a device writes

  /** Physical memory after a device wrote `bytes` to `addrs`. */
  ghost function Written(mem: int -> Byte, addrs: seq<int>, bytes: seq<Byte>): int -> Byte
    requires |addrs| == |bytes|
    decreases |addrs|
  {
    if addrs == [] then mem
    else
      var n := |addrs| - 1;
      var rest := Written(mem, addrs[..n], bytes[..n]);
      (a: int) => if a == addrs[n] then bytes[n] else rest(a)
  }

  ghost predicate Distinct(addrs: seq<int>) {
    forall i: nat, j: nat | i < j < |addrs| :: addrs[i] != addrs[j]
  }

  lemma {:induction false} WrittenAt(mem: int -> Byte, addrs: seq<int>, bytes: seq<Byte>, i: nat)
    requires |addrs| == |bytes| && i < |addrs| && Distinct(addrs)
    ensures Written(mem, addrs, bytes)(addrs[i]) == bytes[i]
    decreases |addrs|
  {
    var n := |addrs| - 1;
    if i < n { WrittenAt(mem, addrs[..n], bytes[..n], i); }
  }

  lemma {:induction false} WrittenElsewhere(mem: int -> Byte, addrs: seq<int>, bytes: seq<Byte>, a: int)
    requires |addrs| == |bytes| && a !in addrs
    ensures Written(mem, addrs, bytes)(a) == mem(a)
    decreases |addrs|
  {
    if addrs != [] {
      var n := |addrs| - 1;
      WrittenElsewhere(mem, addrs[..n], bytes[..n], a);
    }
  }

  /** A device that writes `dev` to the first cells of a part of a ring stores it there, when no two
      bytes of the buffer share a physical address. */
  lemma WrittenRing(mem: int -> Byte, addrs: seq<int>, at: nat, n: nat, dev: seq<Byte>)
    requires Distinct(addrs) && at < |addrs| && |dev| <= n <= |addrs|
    ensures Fetch(Written(mem, Ring(addrs, at, n)[..|dev|], dev), addrs) == Poke(Fetch(mem, addrs), at, dev)
  {
    hide Ring, Poke, Written;
    var mem' := Written(mem, Ring(addrs, at, n)[..|dev|], dev);
    var left, right := Fetch(mem', addrs), Poke(Fetch(mem, addrs), at, dev);
    forall j: nat | j < |addrs| ensures left[j] == right[j] {
      var i := if j >= at then j - at else j + |addrs| - at;
      assert j == Advance(at, i, |addrs|);
      PokeAt(Fetch(mem, addrs), at, dev, i);
      WrittenCell(mem, addrs, at, n, dev, i);
    }
    assert left == right;
  }

  lemma WrittenCell(mem: int -> Byte, addrs: seq<int>, at: nat, n: nat, dev: seq<Byte>, i: nat)
    requires Distinct(addrs) && at < |addrs| && |dev| <= n <= |addrs| && i < |addrs|
    ensures Written(mem, Ring(addrs, at, n)[..|dev|], dev)(addrs[Advance(at, i, |addrs|)]) ==
              if i < |dev| then dev[i] else mem(addrs[Advance(at, i, |addrs|)])
  {
    hide Ring, Written;
    var part := Ring(addrs, at, n)[..|dev|];
    forall k: nat | k < |dev| ensures part[k] == addrs[Advance(at, k, |addrs|)] { RingAt(addrs, at, n, k); }
    assert Distinct(part);
    if i < |dev| {
      WrittenAt(mem, part, dev, i);
    } else {
      assert addrs[Advance(at, i, |addrs|)] !in part;
      WrittenElsewhere(mem, part, dev, addrs[Advance(at, i, |addrs|)]);
    }
  }

  /** The ring's buffer, as it was in `before`, after a device wrote `dev` through the segments. */
  ghost predicate DeviceWrote(f: Kfifo, phys: nat -> nat, vaddr: nat, segs: seq<Segment>,
                              mem: int -> Byte, before: seq<Byte>, dev: seq<Byte>)
    reads f, f.data
  {
    && |before| == f.data.Length && Backs(mem, phys, vaddr, before) && |dev| <= |Flatten(segs)|
    && Backs(Written(mem, Flatten(segs)[..|dev|], dev), phys, vaddr, f.data[..])
  }

  /** What the device wrote lies in the ring as one circular store. */
  lemma DeviceStores(f: Kfifo, phys: nat -> nat, vaddr: nat, segs: seq<Segment>, mem: int -> Byte,
                     before: seq<Byte>, dev: seq<Byte>, at: nat, n: nat, room: nat)
    requires at < f.data.Length && n <= f.data.Length && DeviceWrote(f, phys, vaddr, segs, mem, before, dev)
    requires Distinct(Range(phys, vaddr, f.data.Length))
    requires Covers(segs, RingBytes(phys, vaddr, f.data.Length, at, n), room)
    ensures |dev| <= n && f.data[..] == Poke(before, at, dev)
  {
    hide Range, Flatten, Ring, Written, Distinct, Poke;
    var addrs := Range(phys, vaddr, f.data.Length);
    assert Flatten(segs)[..|dev|] == Ring(addrs, at, n)[..|dev|];
    WrittenRing(mem, addrs, at, n, dev);
  }

  /** The live bytes while the buffer held `before`. */
  ghost function LiveIn(f: Kfifo, before: seq<Byte>): seq<Byte>
    requires f.Valid() && |before| == f.data.Length
    reads f
  {
    Live(before, f.mask + 1, f.esize, f.Slot(f.outIdx), f.Count())
  }

  /** A device wrote `dev` through segments that cover the place of `want` free elements at `off`. */
  ghost predicate Filled(f: Kfifo, off: nat, want: nat, phys: nat -> nat, vaddr: nat, segs: seq<Segment>, room: nat,
                         mem: int -> Byte, before: seq<Byte>, dev: seq<Byte>)
    reads f, f.data
  {
    && f.Valid() && want <= f.mask + 1
    && DeviceWrote(f, phys, vaddr, segs, mem, before, dev)
    && Distinct(Range(phys, vaddr, f.data.Length))
    && Covers(segs, Requested(f, phys, vaddr, off, want), room)
  }

  /** `src` holds at least `n` bytes, and those were appended. */
  ghost predicate Appended(after: seq<Byte>, before: seq<Byte>, src: seq<Byte>, n: nat) {
    n <= |src| && after == before + src[..n]
  }

  /** `kfifo_dma_in_finish` after a device wrote `bytes` bytes through the segments that
      `__kfifo_dma_in_prepare` listed for `want` elements: the whole elements among them are
      appended. */
  method DmaInFinish(f: Kfifo, bytes: nat, ghost phys: nat -> nat, ghost vaddr: nat, ghost segs: seq<Segment>,
                     ghost want: nat, ghost room: nat, ghost mem: int -> Byte, ghost before: seq<Byte>,
                     ghost dev: seq<Byte>) returns (n: nat)
    requires Filled(f, f.inIdx, want, phys, vaddr, segs, room, mem, before, dev)
    requires f.Count() + want <= f.mask + 1 && |dev| == bytes
    modifies f`inIdx
    ensures f.Valid() && n == bytes / f.esize && f.Count() == old(f.Count()) + n
    ensures Appended(f.Contents(), old(LiveIn(f, before)), dev, Bytes(n, f.esize))
  {
    hide Bytes, Residue, Wrap32, Live, Ring, Poke, Covers, RingBytes, DeviceWrote, Distinct, Range;
    ghost var at, free := Bytes(f.Slot(f.inIdx), f.esize), Bytes(want, f.esize);
    BytesOrder(f.mask + 1, f.Slot(f.inIdx), f.esize);
    BytesOrder(want, f.mask + 1 - f.Count(), f.esize);
    BytesOrder(want, f.mask + 1, f.esize);
    DeviceStores(f, phys, vaddr, segs, mem, before, dev, at, free, room);
    n := bytes / f.esize;
    WholeCount(bytes, f.esize, n);
    BytesOrder(n, f.mask + 1 - f.Count(), f.esize);
    f.Publish(before, dev, n);
  }
}
