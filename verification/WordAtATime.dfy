/** The first zero byte of a string, a machine word at a time, for 32- and 64-bit words of either
    byte order.

    A word is compared with the bytes it was loaded from: `Bytes64` and `Bytes32` list them in string
    order, and `FirstZero` is the index a byte-by-byte search would return. */
module WordAtATime {

  /** Index of the first zero byte, or the length when there is none. */
  function FirstZero(s: seq<bv8>): (k: nat)
    ensures k <= |s| && (k < |s| ==> s[k] == 0) && forall i: nat | i < k :: s[i] != 0
  {
    if s == [] || s[0] == 0 then 0 else 1 + FirstZero(s[1..])
  }

  lemma FirstZeroIs(s: seq<bv8>, k: nat)
    requires k <= |s| && (k < |s| ==> s[k] == 0) && forall i: nat | i < k :: s[i] != 0
    ensures FirstZero(s) == k
  {}

  // ---------------------------------------------------------------- 64 bits

  function Bytes64(a: bv64, big: bool): (s: seq<bv8>)
    ensures |s| == 8
  {
    var b0, b1, b2, b3 :=
      (a & 0xff) as bv8, ((a >> 8) & 0xff) as bv8,
      ((a >> 16) & 0xff) as bv8, ((a >> 24) & 0xff) as bv8;
    var b4, b5, b6, b7 :=
      ((a >> 32) & 0xff) as bv8, ((a >> 40) & 0xff) as bv8,
      ((a >> 48) & 0xff) as bv8, ((a >> 56) & 0xff) as bv8;
    if big then [b7, b6, b5, b4, b3, b2, b1, b0] else [b0, b1, b2, b3, b4, b5, b6, b7]
  }

  /** How many bytes from the low end come before one that is zero. */
  function LowestClear64(a: bv64): nat {
    if a & 0xff == 0 then 0 else if a & 0xff00 == 0 then 1
    else if a & 0xff_0000 == 0 then 2 else if a & 0xff00_0000 == 0 then 3
    else if a & 0xff_0000_0000 == 0 then 4 else if a & 0xff00_0000_0000 == 0 then 5
    else if a & 0xff_0000_0000_0000 == 0 then 6 else if a & 0xff00_0000_0000_0000 == 0 then 7 else 8
  }

  /** How many bytes from the low end come before one whose top bit is set. */
  function LowestMark64(bits: bv64): nat {
    if bits & 0x80 != 0 then 0 else if bits & 0x8000 != 0 then 1
    else if bits & 0x80_0000 != 0 then 2 else if bits & 0x8000_0000 != 0 then 3
    else if bits & 0x80_0000_0000 != 0 then 4 else if bits & 0x8000_0000_0000 != 0 then 5
    else if bits & 0x80_0000_0000_0000 != 0 then 6 else if bits & 0x8000_0000_0000_0000 != 0 then 7 else 8
  }

  /** The same two from the high end. */
  function HighestClear64(a: bv64): nat {
    if a & 0xff00_0000_0000_0000 == 0 then 0 else if a & 0xff_0000_0000_0000 == 0 then 1
    else if a & 0xff00_0000_0000 == 0 then 2 else if a & 0xff_0000_0000 == 0 then 3
    else if a & 0xff00_0000 == 0 then 4 else if a & 0xff_0000 == 0 then 5
    else if a & 0xff00 == 0 then 6 else if a & 0xff == 0 then 7 else 8
  }

  function HighestMark64(bits: bv64): nat {
    if bits & 0x8000_0000_0000_0000 != 0 then 0 else if bits & 0x80_0000_0000_0000 != 0 then 1
    else if bits & 0x8000_0000_0000 != 0 then 2 else if bits & 0x80_0000_0000 != 0 then 3
    else if bits & 0x8000_0000 != 0 then 4 else if bits & 0x80_0000 != 0 then 5
    else if bits & 0x8000 != 0 then 6 else if bits & 0x80 != 0 then 7 else 8
  }

  /** All bits of the `k` lowest bytes. */
  function BytesBelow64(k: nat): bv64 {
    if k == 0 then 0 else if k == 1 then 0xff
    else if k == 2 then 0xffff else if k == 3 then 0xff_ffff
    else if k == 4 then 0xffff_ffff else if k == 5 then 0xff_ffff_ffff
    else if k == 6 then 0xffff_ffff_ffff else if k == 7 then 0xff_ffff_ffff_ffff else 0xffff_ffff_ffff_ffff
  }

  /** An index as a word. */
  function Number64(k: nat): bv64 {
    if k == 0 then 0 else if k == 1 then 1 else if k == 2 then 2 else if k == 3 then 3
    else if k == 4 then 4 else if k == 5 then 5 else if k == 6 then 6 else if k == 7 then 7 else 8
  }

  lemma NumberIs64(k: nat)
    requires k <= 8
    ensures Number64(k) as int == k
  {}

  /** The bytes are the word's, the low one first in little-endian order. */
  lemma BytesMakeWord64(a: bv64)
    ensures var s := Bytes64(a, false);
            a == (s[0] as bv64) | ((s[1] as bv64) << 8) | ((s[2] as bv64) << 16) | ((s[3] as bv64) << 24) |
              ((s[4] as bv64) << 32) | ((s[5] as bv64) << 40) | ((s[6] as bv64) << 48) | ((s[7] as bv64) << 56)
  {}

  /** The mask is 0xff in the `k` first bytes of a little-endian word, and 0 in the others. */
  lemma BytesBelowIs64(k: nat, i: nat)
    requires k <= 8 && i < 8
    ensures Bytes64(BytesBelow64(k), false)[i] == if i < k then 0xff else 0
  {}

  lemma BytesClear64(a: bv64)
    ensures var s := Bytes64(a, false);
      && (s[0] == 0 <==> a & 0xff == 0) && (s[1] == 0 <==> a & 0xff00 == 0)
      && (s[2] == 0 <==> a & 0xff_0000 == 0) && (s[3] == 0 <==> a & 0xff00_0000 == 0)
      && (s[4] == 0 <==> a & 0xff_0000_0000 == 0) && (s[5] == 0 <==> a & 0xff00_0000_0000 == 0)
      && (s[6] == 0 <==> a & 0xff_0000_0000_0000 == 0) && (s[7] == 0 <==> a & 0xff00_0000_0000_0000 == 0)
  {}

  lemma BytesReversed64(a: bv64)
    ensures var s, big := Bytes64(a, false), Bytes64(a, true);
      && big[0] == s[7] && big[1] == s[6]
      && big[2] == s[5] && big[3] == s[4]
      && big[4] == s[3] && big[5] == s[2]
      && big[6] == s[1] && big[7] == s[0]
  {}

  lemma LowestClearIsFirst64(a: bv64)
    ensures LowestClear64(a) == FirstZero(Bytes64(a, false))
  {
    hide Bytes64, FirstZero;
    BytesClear64(a);
    FirstZeroIs(Bytes64(a, false), LowestClear64(a));
  }

  lemma HighestClearIsFirst64(a: bv64)
    ensures HighestClear64(a) == FirstZero(Bytes64(a, true))
  {
    hide Bytes64, FirstZero;
    BytesClear64(a);
    BytesReversed64(a);
    FirstZeroIs(Bytes64(a, true), HighestClear64(a));
  }

  /** The borrow may mark bytes above the first zero, never below it. */
  lemma BorrowMarks64(a: bv64)
    ensures var mask := ((a - 0x101_0101_0101_0101) & !a) & 0x8080_8080_8080_8080;
      && LowestMark64(mask) == LowestClear64(a) && mask & 0x7f7f_7f7f_7f7f_7f7f == 0
      && (mask == 0 <==> LowestClear64(a) == 8)
  {}

  /** Nonzero exactly when some byte is zero.  Bytes above the first zero may be marked although they
      are not zero; the lowest mark is right. */
  method HasZeroLittle64(a: bv64) returns (mask: bv64, bits: bv64)
    ensures mask == bits && bits & 0x7f7f_7f7f_7f7f_7f7f == 0
    ensures mask != 0 <==> FirstZero(Bytes64(a, false)) < 8
    ensures LowestMark64(bits) == FirstZero(Bytes64(a, false))
  {
    hide FirstZero, LowestClear64, LowestMark64, Bytes64;
    mask := ((a - 0x101_0101_0101_0101) & !a) & 0x8080_8080_8080_8080;
    bits := mask;
    BorrowMarks64(a);
    LowestClearIsFirst64(a);
  }

  /** Marks become a mask of the whole bytes below the lowest one. */
  method CreateZeroMaskLittle64(marks: bv64) returns (mask: bv64)
    ensures marks != 0 && marks & 0x7f7f_7f7f_7f7f_7f7f == 0 ==> mask == BytesBelow64(LowestMark64(marks))
  {
    var bits := marks;
    bits := (bits - 1) & !bits;
    mask := bits >> 7;
  }

  /** One multiplication counts the bytes of a byte mask. */
  method CountMaskedBytes64(mask: bv64) returns (n: bv64)
    ensures forall k: nat | k < 8 && mask == BytesBelow64(k) :: n == Number64(k) && n as int == k
  {
    n := (mask * 0x0001_0203_0405_0608) >> 56;
    CountsAre64(mask, n);
  }

  lemma CountsAre64(mask: bv64, n: bv64)
    requires forall k: nat | k < 8 && mask == BytesBelow64(k) :: n == Number64(k)
    ensures forall k: nat | k < 8 && mask == BytesBelow64(k) :: n as int == k
  {
    hide BytesBelow64, Number64;
    forall k: nat | k < 8 && mask == BytesBelow64(k) ensures n as int == k { NumberIs64(k); }
  }

  /** The little-endian chain of calls: test, then locate.  The mask is also the mask of the bytes
      before the zero, which callers use as such. */
  method LocateLittle64(a: bv64) returns (found: bool, bytemask: bv64, n: bv64)
    ensures found <==> FirstZero(Bytes64(a, false)) < 8
    ensures found ==> n as int == FirstZero(Bytes64(a, false))
    ensures found ==> bytemask == BytesBelow64(FirstZero(Bytes64(a, false)))
  {
    hide FirstZero, LowestMark64, Bytes64, BytesBelow64, Number64;
    var mask, bits := HasZeroLittle64(a);
    bytemask := CreateZeroMaskLittle64(bits);
    n := CountMaskedBytes64(bytemask);
    found := mask != 0;
    NumberIs64(FirstZero(Bytes64(a, false)));
  }

  method HasZeroBig64(val: bv64) returns (found: bool, data: bv64)
    ensures data == val | 0x7f7f_7f7f_7f7f_7f7f
    ensures found <==> FirstZero(Bytes64(val, true)) < 8
  {
    hide FirstZero, Bytes64;
    var rhs := val | 0x7f7f_7f7f_7f7f_7f7f;
    data := rhs;
    found := (val + 0xfefe_fefe_fefe_feff) & !rhs != 0;
    HighestClearIsFirst64(val);
  }

  /** A bit is set in the bytes that are zero, and in no others. */
  method PrepZeroMaskBig64(val: bv64, rhs: bv64) returns (r: bv64)
    ensures rhs == val | 0x7f7f_7f7f_7f7f_7f7f ==>
      && r & 0x7f7f_7f7f_7f7f_7f7f == 0 && HighestMark64(r) == FirstZero(Bytes64(val, true))
      && (r & 0x80 != 0 <==> val & 0xff == 0) && (r & 0x8000 != 0 <==> val & 0xff00 == 0)
      && (r & 0x80_0000 != 0 <==> val & 0xff_0000 == 0) && (r & 0x8000_0000 != 0 <==> val & 0xff00_0000 == 0)
      && (r & 0x80_0000_0000 != 0 <==> val & 0xff_0000_0000 == 0)
      && (r & 0x8000_0000_0000 != 0 <==> val & 0xff00_0000_0000 == 0)
      && (r & 0x80_0000_0000_0000 != 0 <==> val & 0xff_0000_0000_0000 == 0)
      && (r & 0x8000_0000_0000_0000 != 0 <==> val & 0xff00_0000_0000_0000 == 0)
  {
    hide FirstZero, Bytes64;
    var mask := (val & 0x7f7f_7f7f_7f7f_7f7f) + 0x7f7f_7f7f_7f7f_7f7f;
    r := !(mask | rhs);
    HighestClearIsFirst64(val);
  }

  /** Halving finds the highest mark. */
  method FindZeroBig64(marks: bv64) returns (n: bv64)
    ensures marks != 0 && marks & 0x7f7f_7f7f_7f7f_7f7f == 0 ==>
              n == Number64(HighestMark64(marks)) && n as int == HighestMark64(marks)
  {
    var mask, byte: bv64 := marks, 0;
    if mask >> 32 != 0 {
      mask := mask >> 32;
    } else {
      byte := 4;
    }
    if mask >> 16 != 0 {
      mask := mask >> 16;
    } else {
      byte := byte + 2;
    }
    n := if mask >> 8 != 0 then byte else byte + 1;
    NumberIs64(HighestMark64(marks));
  }

  /** The big-endian chain of calls. */
  method LocateBig64(val: bv64) returns (found: bool, n: bv64)
    ensures found <==> FirstZero(Bytes64(val, true)) < 8
    ensures found ==> n as int == FirstZero(Bytes64(val, true))
  {
    hide FirstZero, Bytes64, Number64;
    var data;
    found, data := HasZeroBig64(val);
    var mask := PrepZeroMaskBig64(val, data);
    n := FindZeroBig64(mask);
    NumberIs64(FirstZero(Bytes64(val, true)));
  }

  // ---------------------------------------------------------------- 32 bits

  function Bytes32(a: bv32, big: bool): (s: seq<bv8>)
    ensures |s| == 4
  {
    var b0, b1, b2, b3 :=
      (a & 0xff) as bv8, ((a >> 8) & 0xff) as bv8,
      ((a >> 16) & 0xff) as bv8, ((a >> 24) & 0xff) as bv8;
    if big then [b3, b2, b1, b0] else [b0, b1, b2, b3]
  }

  /** How many bytes from the low end come before one that is zero. */
  function LowestClear32(a: bv32): nat {
    if a & 0xff == 0 then 0 else if a & 0xff00 == 0 then 1
    else if a & 0xff_0000 == 0 then 2 else if a & 0xff00_0000 == 0 then 3 else 4
  }

  /** How many bytes from the low end come before one whose top bit is set. */
  function LowestMark32(bits: bv32): nat {
    if bits & 0x80 != 0 then 0 else if bits & 0x8000 != 0 then 1
    else if bits & 0x80_0000 != 0 then 2 else if bits & 0x8000_0000 != 0 then 3 else 4
  }

  /** The same two from the high end. */
  function HighestClear32(a: bv32): nat {
    if a & 0xff00_0000 == 0 then 0 else if a & 0xff_0000 == 0 then 1
    else if a & 0xff00 == 0 then 2 else if a & 0xff == 0 then 3 else 4
  }

  function HighestMark32(bits: bv32): nat {
    if bits & 0x8000_0000 != 0 then 0 else if bits & 0x80_0000 != 0 then 1
    else if bits & 0x8000 != 0 then 2 else if bits & 0x80 != 0 then 3 else 4
  }

  /** All bits of the `k` lowest bytes. */
  function BytesBelow32(k: nat): bv32 {
    if k == 0 then 0 else if k == 1 then 0xff
    else if k == 2 then 0xffff else if k == 3 then 0xff_ffff else 0xffff_ffff
  }

  /** An index as a word. */
  function Number32(k: nat): bv32 {
    if k == 0 then 0 else if k == 1 then 1 else if k == 2 then 2 else if k == 3 then 3 else 4
  }

  lemma NumberIs32(k: nat)
    requires k <= 4
    ensures Number32(k) as int == k
  {}

  /** The bytes are the word's, the low one first in little-endian order. */
  lemma BytesMakeWord32(a: bv32)
    ensures var s := Bytes32(a, false);
            a == (s[0] as bv32) | ((s[1] as bv32) << 8) | ((s[2] as bv32) << 16) | ((s[3] as bv32) << 24)
  {}

  /** The mask is 0xff in the `k` first bytes of a little-endian word, and 0 in the others. */
  lemma BytesBelowIs32(k: nat, i: nat)
    requires k <= 4 && i < 4
    ensures Bytes32(BytesBelow32(k), false)[i] == if i < k then 0xff else 0
  {}

  lemma BytesClear32(a: bv32)
    ensures var s := Bytes32(a, false);
      && (s[0] == 0 <==> a & 0xff == 0) && (s[1] == 0 <==> a & 0xff00 == 0)
      && (s[2] == 0 <==> a & 0xff_0000 == 0) && (s[3] == 0 <==> a & 0xff00_0000 == 0)
  {}

  lemma BytesReversed32(a: bv32)
    ensures var s, big := Bytes32(a, false), Bytes32(a, true);
      && big[0] == s[3] && big[1] == s[2]
      && big[2] == s[1] && big[3] == s[0]
  {}

  lemma LowestClearIsFirst32(a: bv32)
    ensures LowestClear32(a) == FirstZero(Bytes32(a, false))
  {
    hide Bytes32, FirstZero;
    BytesClear32(a);
    FirstZeroIs(Bytes32(a, false), LowestClear32(a));
  }

  lemma HighestClearIsFirst32(a: bv32)
    ensures HighestClear32(a) == FirstZero(Bytes32(a, true))
  {
    hide Bytes32, FirstZero;
    BytesClear32(a);
    BytesReversed32(a);
    FirstZeroIs(Bytes32(a, true), HighestClear32(a));
  }

  /** The borrow may mark bytes above the first zero, never below it. */
  lemma BorrowMarks32(a: bv32)
    ensures var mask := ((a - 0x101_0101) & !a) & 0x8080_8080;
      && LowestMark32(mask) == LowestClear32(a) && mask & 0x7f7f_7f7f == 0
      && (mask == 0 <==> LowestClear32(a) == 4)
  {}

  /** Nonzero exactly when some byte is zero.  Bytes above the first zero may be marked although they
      are not zero; the lowest mark is right. */
  method HasZeroLittle32(a: bv32) returns (mask: bv32, bits: bv32)
    ensures mask == bits && bits & 0x7f7f_7f7f == 0
    ensures mask != 0 <==> FirstZero(Bytes32(a, false)) < 4
    ensures LowestMark32(bits) == FirstZero(Bytes32(a, false))
  {
    hide FirstZero, LowestClear32, LowestMark32, Bytes32;
    mask := ((a - 0x101_0101) & !a) & 0x8080_8080;
    bits := mask;
    BorrowMarks32(a);
    LowestClearIsFirst32(a);
  }

  /** Marks become a mask of the whole bytes below the lowest one. */
  method CreateZeroMaskLittle32(marks: bv32) returns (mask: bv32)
    ensures marks != 0 && marks & 0x7f7f_7f7f == 0 ==> mask == BytesBelow32(LowestMark32(marks))
  {
    var bits := marks;
    bits := (bits - 1) & !bits;
    mask := bits >> 7;
  }

  /** A signed shift: the top bit fills in from the left. */
  function SignedShift23(x: bv32): bv32 {
    if x & 0x8000_0000 != 0 then (x >> 23) | 0xffff_fe00 else x >> 23
  }

  /** One addition counts the bytes of a byte mask. */
  method CountMaskedBytes32(mask: bv32) returns (n: bv32)
    ensures forall k: nat | k < 4 && mask == BytesBelow32(k) :: n == Number32(k) && n as int == k
  {
    var a := SignedShift23(0xff_0001 + mask);
    n := a & mask;
    CountsAre32(mask, n);
  }

  lemma CountsAre32(mask: bv32, n: bv32)
    requires forall k: nat | k < 4 && mask == BytesBelow32(k) :: n == Number32(k)
    ensures forall k: nat | k < 4 && mask == BytesBelow32(k) :: n as int == k
  {
    hide BytesBelow32, Number32;
    forall k: nat | k < 4 && mask == BytesBelow32(k) ensures n as int == k { NumberIs32(k); }
  }

  /** The little-endian chain of calls: test, then locate.  The mask is also the mask of the bytes
      before the zero, which callers use as such. */
  method LocateLittle32(a: bv32) returns (found: bool, bytemask: bv32, n: bv32)
    ensures found <==> FirstZero(Bytes32(a, false)) < 4
    ensures found ==> n as int == FirstZero(Bytes32(a, false))
    ensures found ==> bytemask == BytesBelow32(FirstZero(Bytes32(a, false)))
  {
    hide FirstZero, LowestMark32, Bytes32, BytesBelow32, Number32;
    var mask, bits := HasZeroLittle32(a);
    bytemask := CreateZeroMaskLittle32(bits);
    n := CountMaskedBytes32(bytemask);
    found := mask != 0;
    NumberIs32(FirstZero(Bytes32(a, false)));
  }

  method HasZeroBig32(val: bv32) returns (found: bool, data: bv32)
    ensures data == val | 0x7f7f_7f7f
    ensures found <==> FirstZero(Bytes32(val, true)) < 4
  {
    hide FirstZero, Bytes32;
    var rhs := val | 0x7f7f_7f7f;
    data := rhs;
    found := (val + 0xfefe_feff) & !rhs != 0;
    HighestClearIsFirst32(val);
  }

  /** A bit is set in the bytes that are zero, and in no others. */
  method PrepZeroMaskBig32(val: bv32, rhs: bv32) returns (r: bv32)
    ensures rhs == val | 0x7f7f_7f7f ==>
      && r & 0x7f7f_7f7f == 0 && HighestMark32(r) == FirstZero(Bytes32(val, true))
      && (r & 0x80 != 0 <==> val & 0xff == 0) && (r & 0x8000 != 0 <==> val & 0xff00 == 0)
      && (r & 0x80_0000 != 0 <==> val & 0xff_0000 == 0) && (r & 0x8000_0000 != 0 <==> val & 0xff00_0000 == 0)
  {
    hide FirstZero, Bytes32;
    var mask := (val & 0x7f7f_7f7f) + 0x7f7f_7f7f;
    r := !(mask | rhs);
    HighestClearIsFirst32(val);
  }

  /** Halving finds the highest mark. */
  method FindZeroBig32(marks: bv32) returns (n: bv32)
    ensures marks != 0 && marks & 0x7f7f_7f7f == 0 ==>
              n == Number32(HighestMark32(marks)) && n as int == HighestMark32(marks)
  {
    var mask, byte: bv32 := marks, 0;
    if mask >> 16 != 0 {
      mask := mask >> 16;
    } else {
      byte := byte + 2;
    }
    n := if mask >> 8 != 0 then byte else byte + 1;
    NumberIs32(HighestMark32(marks));
  }

  /** The big-endian chain of calls. */
  method LocateBig32(val: bv32) returns (found: bool, n: bv32)
    ensures found <==> FirstZero(Bytes32(val, true)) < 4
    ensures found ==> n as int == FirstZero(Bytes32(val, true))
  {
    hide FirstZero, Bytes32, Number32;
    var data;
    found, data := HasZeroBig32(val);
    var mask := PrepZeroMaskBig32(val, data);
    n := FindZeroBig32(mask);
    NumberIs32(FirstZero(Bytes32(val, true)));
  }
}
