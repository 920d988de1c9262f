/** A buffer read and written circularly, as plain sequences.

    `Ring(buf, at, n)` are the `n` cells from position `at` on, continuing at the front when the
    end is reached; `Poke(buf, at, src)` stores `src` there.  Both come in two pieces, exactly as
    the two copies of the source do. */
module Rings {

  /** Position `n` cells further round a buffer of `size` cells. */
  function Advance(at: nat, n: nat, size: nat): (r: nat)
    requires at < size && n <= size
    ensures r < size
  {
    if at + n < size then at + n else at + n - size
  }

  function Ring<T>(buf: seq<T>, at: nat, n: nat): (r: seq<T>)
    requires at < |buf| && n <= |buf|
    ensures |r| == n
  {
    if at + n <= |buf| then buf[at..at + n] else buf[at..] + buf[..at + n - |buf|]
  }

  /** `src` written over the cells from `at` on, without going round. */
  function Splice<T>(buf: seq<T>, at: nat, src: seq<T>): (r: seq<T>)
    requires at + |src| <= |buf|
    ensures |r| == |buf|
  {
    buf[..at] + src + buf[at + |src|..]
  }

  function Poke<T>(buf: seq<T>, at: nat, src: seq<T>): (r: seq<T>)
    requires at < |buf| && |src| <= |buf|
    ensures |r| == |buf|
  {
    if at + |src| <= |buf| then
      buf[..at] + src + buf[at + |src|..]
    else
      var l := |buf| - at;
      src[l..] + buf[|src| - l..at] + src[..l]
  }

  /** Storing in two pieces: up to the end of the buffer, the rest at its front. */
  lemma PokeInPieces<T>(buf: seq<T>, at: nat, src: seq<T>, l: nat)
    requires at < |buf| && |src| <= |buf|
    requires l == if |src| < |buf| - at then |src| else |buf| - at
    ensures Splice(Splice(buf, at, src[..l]), 0, src[l..]) == Poke(buf, at, src)
  {}

  /** Fetching in two pieces. */
  lemma RingInPieces<T>(buf: seq<T>, at: nat, n: nat, l: nat, dst: seq<T>)
    requires at < |buf| && n <= |buf| && n <= |dst|
    requires l == if n < |buf| - at then n else |buf| - at
    ensures Splice(Splice(dst, 0, buf[at..at + l]), l, buf[..n - l]) == Ring(buf, at, n) + dst[n..]
  {}

  lemma RingAt<T>(buf: seq<T>, at: nat, n: nat, i: nat)
    requires at < |buf| && n <= |buf| && i < n
    ensures Ring(buf, at, n)[i] == buf[Advance(at, i, |buf|)]
  {}

  /** Cells `at .. at + |src|` hold `src`; every other cell is untouched. */
  lemma PokeAt<T>(buf: seq<T>, at: nat, src: seq<T>, i: nat)
    requires at < |buf| && |src| <= |buf| && i < |buf|
    ensures Poke(buf, at, src)[Advance(at, i, |buf|)] ==
              if i < |src| then src[i] else buf[Advance(at, i, |buf|)]
  {}

  lemma AdvanceTwice(at: nat, n: nat, k: nat, size: nat)
    requires at < size && n + k <= size
    ensures Advance(Advance(at, n, size), k, size) == Advance(at, n + k, size)
  {}

  lemma RingSplit<T>(buf: seq<T>, at: nat, n: nat, k: nat)
    requires at < |buf| && k <= n <= |buf|
    ensures Ring(buf, at, n)[..k] == Ring(buf, at, k)
    ensures Ring(buf, at, n)[k..] == Ring(buf, Advance(at, k, |buf|), n - k)
  {
    hide Ring, Advance;
    var whole, front, rest := Ring(buf, at, n), Ring(buf, at, k), Ring(buf, Advance(at, k, |buf|), n - k);
    forall i: nat | i < k ensures whole[i] == front[i] {
      RingAt(buf, at, n, i);
      RingAt(buf, at, k, i);
    }
    forall i: nat | i < n - k ensures whole[k + i] == rest[i] {
      RingAt(buf, at, n, k + i);
      RingAt(buf, Advance(at, k, |buf|), n - k, i);
      AdvanceTwice(at, k, i, |buf|);
    }
    assert whole[..k] == front;
    assert whole[k..] == rest;
  }

  /** Storing behind the live cells and then counting `k` of the stored ones as live appends. */
  lemma PokeAppends<T>(buf: seq<T>, at: nat, n: nat, src: seq<T>, k: nat)
    requires at < |buf| && n + |src| <= |buf| && k <= |src|
    ensures Ring(Poke(buf, Advance(at, n, |buf|), src), at, n + k) == Ring(buf, at, n) + src[..k]
  {
    hide Ring, Poke, Advance;
    var left := Ring(Poke(buf, Advance(at, n, |buf|), src), at, n + k);
    var right := Ring(buf, at, n) + src[..k];
    forall i: nat | i < n + k ensures left[i] == right[i] {
      if i < n { PokeKeeps(buf, at, n, src, k, i); } else { PokeStores(buf, at, n, src, k, i); }
    }
    assert |left| == |right| && forall i :: 0 <= i < |left| ==> left[i] == right[i];
  }

  lemma PokeKeeps<T>(buf: seq<T>, at: nat, n: nat, src: seq<T>, k: nat, i: nat)
    requires at < |buf| && n + |src| <= |buf| && k <= |src| && i < n
    ensures Ring(Poke(buf, Advance(at, n, |buf|), src), at, n + k)[i] == Ring(buf, at, n)[i]
  {
    hide Ring, Poke;
    var tail := Advance(at, n, |buf|);
    RingAt(Poke(buf, tail, src), at, n + k, i);
    RingAt(buf, at, n, i);
    var j := |buf| - n + i;
    assert Advance(tail, j, |buf|) == Advance(at, i, |buf|);
    PokeAt(buf, tail, src, j);
  }

  lemma PokeStores<T>(buf: seq<T>, at: nat, n: nat, src: seq<T>, k: nat, i: nat)
    requires at < |buf| && n + |src| <= |buf| && k <= |src| && n <= i < n + k
    ensures Ring(Poke(buf, Advance(at, n, |buf|), src), at, n + k)[i] == src[i - n]
  {
    hide Ring, Poke, Advance;
    var tail := Advance(at, n, |buf|);
    RingAt(Poke(buf, tail, src), at, n + k, i);
    AdvanceTwice(at, n, i - n, |buf|);
    PokeAt(buf, tail, src, i - n);
  }

  /** Two adjacent stores are one. */
  lemma PokeTwice<T>(buf: seq<T>, at: nat, a: seq<T>, b: seq<T>)
    requires at < |buf| && |a| + |b| <= |buf|
    ensures Poke(Poke(buf, at, a), Advance(at, |a|, |buf|), b) == Poke(buf, at, a + b)
  {
    hide Poke;
    var once, twice := Poke(buf, at, a + b), Poke(Poke(buf, at, a), Advance(at, |a|, |buf|), b);
    forall j: nat | j < |buf| ensures twice[j] == once[j] {
      var i := if j >= at then j - at else j + |buf| - at;
      assert j == Advance(at, i, |buf|);
      PokeAt(buf, at, a + b, i);
      PokeTwiceAt(buf, at, a, b, i);
    }
    assert |twice| == |once| && forall j :: 0 <= j < |twice| ==> twice[j] == once[j];
  }

  lemma PokeTwiceAt<T>(buf: seq<T>, at: nat, a: seq<T>, b: seq<T>, i: nat)
    requires at < |buf| && |a| + |b| <= |buf| && i < |buf|
    ensures Poke(Poke(buf, at, a), Advance(at, |a|, |buf|), b)[Advance(at, i, |buf|)] ==
              if i < |a| + |b| then (a + b)[i] else buf[Advance(at, i, |buf|)]
  {
    hide Poke;
    var next := Advance(at, |a|, |buf|);
    PokeAt(buf, at, a, i);
    var k := if i < |a| then i + |buf| - |a| else i - |a|;
    assert Advance(next, k, |buf|) == Advance(at, i, |buf|);
    PokeAt(Poke(buf, at, a), next, b, k);
  }

  /** So are two adjacent stores, the later cells first. */
  lemma PokeBehindFirst<T>(buf: seq<T>, at: nat, a: seq<T>, b: seq<T>)
    requires at < |buf| && |a| + |b| <= |buf|
    ensures Poke(Poke(buf, Advance(at, |a|, |buf|), b), at, a) == Poke(buf, at, a + b)
  {
    hide Poke;
    var once, twice := Poke(buf, at, a + b), Poke(Poke(buf, Advance(at, |a|, |buf|), b), at, a);
    forall j: nat | j < |buf| ensures twice[j] == once[j] {
      var i := if j >= at then j - at else j + |buf| - at;
      assert j == Advance(at, i, |buf|);
      PokeAt(buf, at, a + b, i);
      PokeBehindFirstAt(buf, at, a, b, i);
    }
    assert |twice| == |once| && forall j :: 0 <= j < |twice| ==> twice[j] == once[j];
  }

  lemma PokeBehindFirstAt<T>(buf: seq<T>, at: nat, a: seq<T>, b: seq<T>, i: nat)
    requires at < |buf| && |a| + |b| <= |buf| && i < |buf|
    ensures Poke(Poke(buf, Advance(at, |a|, |buf|), b), at, a)[Advance(at, i, |buf|)] ==
              if i < |a| + |b| then (a + b)[i] else buf[Advance(at, i, |buf|)]
  {
    hide Poke;
    var next := Advance(at, |a|, |buf|);
    PokeAt(Poke(buf, next, b), at, a, i);
    var k := if i < |a| then i + |buf| - |a| else i - |a|;
    assert Advance(next, k, |buf|) == Advance(at, i, |buf|);
    PokeAt(buf, next, b, k);
  }
}
