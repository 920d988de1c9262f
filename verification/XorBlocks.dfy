/** The RAID-5 parity kernels: a block is xored, eight words a line, with one to four others.

    The kernels work in place.  Each is proved to compute `Xored`, the word-by-word definition, for
    every number of lines from one up, and to leave the rest of the block alone.  The blocks may be
    the same array.  A word is a number of any width: `Xor` is digit by digit and never carries. */
module XorBlocks {
  import opened Machine

  type Word = nat

  function Xor(a: Word, b: Word): Word {
    if a == 0 && b == 0 then 0 else 2 * Xor(a / 2, b / 2) + if a % 2 != b % 2 then 1 else 0
  }

  /** A word xored with a word of each source in turn. */
  function Mix(x: Word, column: seq<Word>): Word
    decreases |column|
  {
    if column == [] then x else Mix(Xor(x, column[0]), column[1..])
  }

  /** Word `i` of every source. */
  function Column(sources: seq<seq<Word>>, i: nat): (c: seq<Word>)
    requires forall s | s in sources :: i < |s|
    ensures |c| == |sources|
  {
    if sources == [] then [] else [sources[0][i]] + Column(sources[1..], i)
  }

  /** The first `n` words of `block` xored with the sources, the others as they were. */
  function Xored(block: seq<Word>, sources: seq<seq<Word>>, n: nat): (r: seq<Word>)
    requires n <= |block| && forall s | s in sources :: n <= |s|
    ensures |r| == |block|
  {
    seq(|block|, i requires 0 <= i < |block| => if i < n then Mix(block[i], Column(sources, i)) else block[i])
  }

  // ---------------------------------------------------------------- words

  lemma XorDigits(a: Word, b: Word)
    ensures Xor(a, b) / 2 == Xor(a / 2, b / 2) && Xor(a, b) % 2 == if a % 2 != b % 2 then 1 else 0
  {}

  lemma {:induction false} XorCommutes(a: Word, b: Word)
    ensures Xor(a, b) == Xor(b, a)
  {
    if a != 0 || b != 0 { XorCommutes(a / 2, b / 2); }
  }

  lemma {:induction false} XorRegroups(a: Word, b: Word, c: Word)
    ensures Xor(Xor(a, b), c) == Xor(a, Xor(b, c))
    decreases a + b + c
  {
    if a != 0 || b != 0 || c != 0 {
      XorRegroups(a / 2, b / 2, c / 2);
      XorDigits(a, b);
      XorDigits(b, c);
      XorDigits(Xor(a, b), c);
      XorDigits(a, Xor(b, c));
    }
  }

  lemma {:induction false} XorCancels(a: Word)
    ensures Xor(a, a) == 0 && Xor(a, 0) == a && Xor(0, a) == a
  {
    if a != 0 { XorCancels(a / 2); }
  }

  /** Words stay as wide as they were. */
  lemma {:induction false} XorKeepsWidth(a: Word, b: Word, w: nat)
    requires a < Pow2(w) && b < Pow2(w)
    ensures Xor(a, b) < Pow2(w)
  {
    if w > 0 { XorKeepsWidth(a / 2, b / 2, w - 1); }
  }

  function Xor4(x: Word, a: Word, b: Word, c: Word, d: Word): Word {
    Xor(Xor(Xor(Xor(x, a), b), c), d)
  }

  /** The plain kernels xor the sources first, the register kernels one after the other. */
  lemma Regroup(x: Word, a: Word, b: Word, c: Word, d: Word)
    ensures Xor(x, Xor(Xor(Xor(a, b), c), d)) == Xor4(x, a, b, c, d)
  {
    hide Xor;
    XorRegroups(x, a, b);
    XorRegroups(x, Xor(a, b), c);
    XorRegroups(x, Xor(Xor(a, b), c), d);
  }

  lemma XoredIs2(block: seq<Word>, s2: seq<Word>, n: nat, result: seq<Word>)
    requires n <= |block| && n <= |s2| && |result| == |block|
    requires forall i | 0 <= i < n :: result[i] == Xor(block[i], s2[i])
    requires forall i | n <= i < |block| :: result[i] == block[i]
    ensures result == Xored(block, [s2], n)
  {
    hide Xor;
    forall i: nat | i < n ensures result[i] == Mix(block[i], Column([s2], i)) {
      MixOne(block[i], s2[i]);
    }
  }

  lemma MixOne(x: Word, a: Word)
    ensures Mix(x, [a]) == Xor(x, a)
  {}

  lemma XoredIs5(block: seq<Word>, s2: seq<Word>, s3: seq<Word>, s4: seq<Word>,
                 s5: seq<Word>, n: nat, result: seq<Word>)
    requires n <= |block| && n <= |s2| && n <= |s3| && n <= |s4| && n <= |s5| && |result| == |block|
    requires forall i | 0 <= i < n :: result[i] == Xor4(block[i], s2[i], s3[i], s4[i], s5[i])
    requires forall i | n <= i < |block| :: result[i] == block[i]
    ensures result == Xored(block, [s2, s3, s4, s5], n)
  {
    hide Xor, Xor4;
    forall i: nat | i < n ensures result[i] == Mix(block[i], Column([s2, s3, s4, s5], i)) {
      ColumnFour(s2, s3, s4, s5, i);
      MixFour(block[i], s2[i], s3[i], s4[i], s5[i]);
    }
  }

  lemma ColumnFour(s2: seq<Word>, s3: seq<Word>, s4: seq<Word>, s5: seq<Word>, i: nat)
    requires i < |s2| && i < |s3| && i < |s4| && i < |s5|
    ensures Column([s2, s3, s4, s5], i) == [s2[i], s3[i], s4[i], s5[i]]
  {
    var all := [s2, s3, s4, s5];
    assert all[1..] == [s3, s4, s5] && all[1..][1..] == [s4, s5] && all[1..][1..][1..] == [s5];
    assert Column([s5], i) == [s5[i]];
    assert Column([s4, s5], i) == [s4[i], s5[i]];
    assert Column([s3, s4, s5], i) == [s3[i], s4[i], s5[i]];
  }

  lemma MixFour(x: Word, a: Word, b: Word, c: Word, d: Word)
    ensures Mix(x, [a, b, c, d]) == Xor4(x, a, b, c, d)
  {
    hide Xor;
    assert [a, b, c, d][1..] == [b, c, d];
    assert [b, c, d][1..] == [c, d];
    assert [c, d][1..] == [d];
    assert Mix(Xor(Xor(Xor(x, a), b), c), [d]) == Xor4(x, a, b, c, d);
    assert Mix(Xor(Xor(x, a), b), [c, d]) == Xor4(x, a, b, c, d);
    assert Mix(Xor(x, a), [b, c, d]) == Xor4(x, a, b, c, d);
  }

  // ---------------------------------------------------------------- one line

  method HalfLine2(p1: array<Word>, p2: array<Word>, at: nat)
    requires at + 4 <= p1.Length && at + 4 <= p2.Length
    modifies p1
    ensures forall i | at <= i < at + 4 :: p1[i] == old(Xor(p1[i], p2[i]))
    ensures forall i | 0 <= i < p1.Length && !(at <= i < at + 4) :: p1[i] == old(p1[i])
  {
    hide Xor;
    p1[at] := Xor(p1[at], p2[at]);
    p1[at + 1] := Xor(p1[at + 1], p2[at + 1]);
    p1[at + 2] := Xor(p1[at + 2], p2[at + 2]);
    p1[at + 3] := Xor(p1[at + 3], p2[at + 3]);
  }

  method Line8Regs2(p1: array<Word>, p2: array<Word>, at: nat)
    requires at + 8 <= p1.Length && at + 8 <= p2.Length
    modifies p1
    ensures forall i | at <= i < at + 8 :: p1[i] == old(Xor(p1[i], p2[i]))
    ensures forall i | 0 <= i < p1.Length && !(at <= i < at + 8) :: p1[i] == old(p1[i])
  {
    hide Xor;
    HalfLine2(p1, p2, at);
    HalfLine2(p1, p2, at + 4);
  }

  method HalfLine5(p1: array<Word>, p2: array<Word>, p3: array<Word>, p4: array<Word>, p5: array<Word>, at: nat)
    requires at + 4 <= p1.Length && at + 4 <= p2.Length && at + 4 <= p3.Length && at + 4 <= p4.Length &&
             at + 4 <= p5.Length
    modifies p1
    ensures forall i | at <= i < at + 4 :: p1[i] == old(Xor4(p1[i], p2[i], p3[i], p4[i], p5[i]))
    ensures forall i | 0 <= i < p1.Length && !(at <= i < at + 4) :: p1[i] == old(p1[i])
  {
    hide Xor;
    p1[at] := Xor(p1[at], Xor(Xor(Xor(p2[at], p3[at]), p4[at]), p5[at]));
    p1[at + 1] := Xor(p1[at + 1], Xor(Xor(Xor(p2[at + 1], p3[at + 1]), p4[at + 1]), p5[at + 1]));
    p1[at + 2] := Xor(p1[at + 2], Xor(Xor(Xor(p2[at + 2], p3[at + 2]), p4[at + 2]), p5[at + 2]));
    p1[at + 3] := Xor(p1[at + 3], Xor(Xor(Xor(p2[at + 3], p3[at + 3]), p4[at + 3]), p5[at + 3]));
    forall i | at <= i < at + 4 ensures p1[i] == old(Xor4(p1[i], p2[i], p3[i], p4[i], p5[i])) {
      Regroup(old(p1[i]), old(p2[i]), old(p3[i]), old(p4[i]), old(p5[i]));
    }
  }

  method Line8Regs5(p1: array<Word>, p2: array<Word>, p3: array<Word>, p4: array<Word>, p5: array<Word>, at: nat)
    requires at + 8 <= p1.Length && at + 8 <= p2.Length && at + 8 <= p3.Length && at + 8 <= p4.Length &&
             at + 8 <= p5.Length
    modifies p1
    ensures forall i | at <= i < at + 8 :: p1[i] == old(Xor4(p1[i], p2[i], p3[i], p4[i], p5[i]))
    ensures forall i | 0 <= i < p1.Length && !(at <= i < at + 8) :: p1[i] == old(p1[i])
  {
    hide Xor, Xor4;
    HalfLine5(p1, p2, p3, p4, p5, at);
    HalfLine5(p1, p2, p3, p4, p5, at + 4);
  }

  method StoreLine(p1: array<Word>, at: nat,
                   d0: Word, d1: Word, d2: Word, d3: Word, d4: Word, d5: Word, d6: Word, d7: Word)
    requires at + 8 <= p1.Length
    modifies p1
    ensures p1[at] == d0 && p1[at + 1] == d1 && p1[at + 2] == d2 && p1[at + 3] == d3
    ensures p1[at + 4] == d4 && p1[at + 5] == d5 && p1[at + 6] == d6 && p1[at + 7] == d7
    ensures forall i | 0 <= i < p1.Length && !(at <= i < at + 8) :: p1[i] == old(p1[i])
  {
    p1[at], p1[at + 1], p1[at + 2], p1[at + 3] := d0, d1, d2, d3;
    p1[at + 4], p1[at + 5], p1[at + 6], p1[at + 7] := d4, d5, d6, d7;
  }

  method Line32Regs2(p1: array<Word>, p2: array<Word>, at: nat)
    requires at + 8 <= p1.Length && at + 8 <= p2.Length
    modifies p1
    ensures forall i | at <= i < at + 8 :: p1[i] == old(Xor(p1[i], p2[i]))
    ensures forall i | 0 <= i < p1.Length && !(at <= i < at + 8) :: p1[i] == old(p1[i])
  {
    hide Xor;
    var d0, d1, d2, d3 := p1[at], p1[at + 1], p1[at + 2], p1[at + 3];
    var d4, d5, d6, d7 := p1[at + 4], p1[at + 5], p1[at + 6], p1[at + 7];
    d0, d1, d2, d3 := Xor(d0, p2[at]), Xor(d1, p2[at + 1]), Xor(d2, p2[at + 2]), Xor(d3, p2[at + 3]);
    d4, d5, d6, d7 := Xor(d4, p2[at + 4]), Xor(d5, p2[at + 5]), Xor(d6, p2[at + 6]), Xor(d7, p2[at + 7]);
    StoreLine(p1, at, d0, d1, d2, d3, d4, d5, d6, d7);
  }

  method Line32Regs5(p1: array<Word>, p2: array<Word>, p3: array<Word>, p4: array<Word>, p5: array<Word>, at: nat)
    requires at + 8 <= p1.Length && at + 8 <= p2.Length && at + 8 <= p3.Length && at + 8 <= p4.Length &&
             at + 8 <= p5.Length
    modifies p1
    ensures forall i | at <= i < at + 8 :: p1[i] == old(Xor4(p1[i], p2[i], p3[i], p4[i], p5[i]))
    ensures forall i | 0 <= i < p1.Length && !(at <= i < at + 8) :: p1[i] == old(p1[i])
  {
    hide Xor;
    var d0, d1, d2, d3 := p1[at], p1[at + 1], p1[at + 2], p1[at + 3];
    var d4, d5, d6, d7 := p1[at + 4], p1[at + 5], p1[at + 6], p1[at + 7];
    d0, d1, d2, d3 := Xor(d0, p2[at]), Xor(d1, p2[at + 1]), Xor(d2, p2[at + 2]), Xor(d3, p2[at + 3]);
    d4, d5, d6, d7 := Xor(d4, p2[at + 4]), Xor(d5, p2[at + 5]), Xor(d6, p2[at + 6]), Xor(d7, p2[at + 7]);
    d0, d1, d2, d3 := Xor(d0, p3[at]), Xor(d1, p3[at + 1]), Xor(d2, p3[at + 2]), Xor(d3, p3[at + 3]);
    d4, d5, d6, d7 := Xor(d4, p3[at + 4]), Xor(d5, p3[at + 5]), Xor(d6, p3[at + 6]), Xor(d7, p3[at + 7]);
    d0, d1, d2, d3 := Xor(d0, p4[at]), Xor(d1, p4[at + 1]), Xor(d2, p4[at + 2]), Xor(d3, p4[at + 3]);
    d4, d5, d6, d7 := Xor(d4, p4[at + 4]), Xor(d5, p4[at + 5]), Xor(d6, p4[at + 6]), Xor(d7, p4[at + 7]);
    d0, d1, d2, d3 := Xor(d0, p5[at]), Xor(d1, p5[at + 1]), Xor(d2, p5[at + 2]), Xor(d3, p5[at + 3]);
    d4, d5, d6, d7 := Xor(d4, p5[at + 4]), Xor(d5, p5[at + 5]), Xor(d6, p5[at + 6]), Xor(d7, p5[at + 7]);
    StoreLine(p1, at, d0, d1, d2, d3, d4, d5, d6, d7);
  }

  // ---------------------------------------------------------------- the kernels

  /** Whole lines of eight words of `size` bytes. */
  function Lines(bytes: nat, size: nat): nat
    requires size > 0
  {
    bytes / size / 8
  }

  /** The lines are all the whole lines that fit the bytes. */
  lemma LinesFit(bytes: nat, size: nat)
    requires size > 0
    ensures 8 * (size * Lines(bytes, size)) <= bytes < 8 * (size * (Lines(bytes, size) + 1))
  {
    var words, lines := bytes / size, Lines(bytes, size);
    assert bytes == size * words + bytes % size;
    assert words == 8 * lines + words % 8;
    WholeLines(bytes, size, words, lines, bytes % size, words % 8);
  }

  lemma WholeLines(bytes: int, size: int, words: int, lines: int, rest: int, odd: int)
    requires bytes == size * words + rest && 0 <= rest < size && words == 8 * lines + odd && 0 <= odd < 8
    ensures 8 * (size * lines) <= bytes < 8 * (size * (lines + 1))
  {
    Distribute(size, 8 * lines, odd);
    Distribute(size, lines, 1);
    EightTimes(size, lines);
    ProductNonneg(size, odd);
    ProductNonneg(size, 7 - odd);
    Distribute(size, 7 - odd, odd);
  }

  lemma Distribute(a: int, x: int, y: int)
    ensures a * (x + y) == a * x + a * y
  {}

  lemma EightTimes(a: int, x: int)
    ensures a * (8 * x) == 8 * (a * x)
  {}

  /** The first `done` words are xored, the others and the sources there are as they were. */
  twostate predicate Progress2(p1: array<Word>, p2: array<Word>, done: int)
    requires 0 <= done <= p1.Length && done <= p2.Length
    reads p1, p2
  {
    && (forall i | 0 <= i < done :: p1[i] == old(Xor(p1[i], p2[i])))
    && (forall i | done <= i < p1.Length :: p1[i] == old(p1[i]))
    && (forall i | done <= i < p2.Length :: p2[i] == old(p2[i]))
  }

  twostate predicate Progress5(p1: array<Word>, p2: array<Word>, p3: array<Word>, p4: array<Word>, p5: array<Word>,
                               done: int)
    requires 0 <= done <= p1.Length && done <= p2.Length && done <= p3.Length && done <= p4.Length && done <= p5.Length
    reads p1, p2, p3, p4, p5
  {
    && (forall i | 0 <= i < done :: p1[i] == old(Xor4(p1[i], p2[i], p3[i], p4[i], p5[i])))
    && (forall i | done <= i < p1.Length :: p1[i] == old(p1[i]))
    && (forall i | done <= i < p2.Length :: p2[i] == old(p2[i]))
    && (forall i | done <= i < p3.Length :: p3[i] == old(p3[i]))
    && (forall i | done <= i < p4.Length :: p4[i] == old(p4[i]))
    && (forall i | done <= i < p5.Length :: p5[i] == old(p5[i]))
  }

  method Xor8Regs2(bytes: nat, size: nat, p1: array<Word>, p2: array<Word>)
    requires size > 0 && Lines(bytes, size) >= 1
    requires 8 * Lines(bytes, size) <= p1.Length && 8 * Lines(bytes, size) <= p2.Length
    modifies p1
    ensures p1[..] == Xored(old(p1[..]), [old(p2[..])], 8 * Lines(bytes, size))
  {
    hide Xor, Xored, Lines;
    var lines: int := Lines(bytes, size);
    var done := 0;
    while true
      invariant 1 <= lines && done == 8 * (Lines(bytes, size) - lines) >= 0
      invariant Progress2(p1, p2, done)
      decreases lines
    {
      Line8Regs2(p1, p2, done);
      done, lines := done + 8, lines - 1;
      if lines <= 0 { break; }
    }
    XoredIs2(old(p1[..]), old(p2[..]), done, p1[..]);
  }

  method Xor8Regs5(bytes: nat, size: nat, p1: array<Word>, p2: array<Word>,
                   p3: array<Word>, p4: array<Word>, p5: array<Word>)
    requires size > 0 && Lines(bytes, size) >= 1
    requires 8 * Lines(bytes, size) <= p1.Length && 8 * Lines(bytes, size) <= p2.Length &&
             8 * Lines(bytes, size) <= p3.Length && 8 * Lines(bytes, size) <= p4.Length &&
             8 * Lines(bytes, size) <= p5.Length
    modifies p1
    ensures p1[..] == Xored(old(p1[..]), [old(p2[..]), old(p3[..]), old(p4[..]), old(p5[..])], 8 * Lines(bytes, size))
  {
    hide Xor, Xored, Lines, Xor4;
    var lines: int := Lines(bytes, size);
    var done := 0;
    while true
      invariant 1 <= lines && done == 8 * (Lines(bytes, size) - lines) >= 0
      invariant Progress5(p1, p2, p3, p4, p5, done)
      decreases lines
    {
      Line8Regs5(p1, p2, p3, p4, p5, done);
      done, lines := done + 8, lines - 1;
      if lines <= 0 { break; }
    }
    XoredIs5(old(p1[..]), old(p2[..]), old(p3[..]), old(p4[..]), old(p5[..]), done, p1[..]);
  }

  method Xor8RegsP2(bytes: nat, size: nat, p1: array<Word>, p2: array<Word>)
    requires size > 0 && Lines(bytes, size) >= 1
    requires 8 * Lines(bytes, size) <= p1.Length && 8 * Lines(bytes, size) <= p2.Length
    modifies p1
    ensures p1[..] == Xored(old(p1[..]), [old(p2[..])], 8 * Lines(bytes, size))
  {
    hide Xor, Xored, Lines;
    var lines: int := Lines(bytes, size) - 1;
    var done := 0;
    while true
      invariant 0 <= lines && done == 8 * (Lines(bytes, size) - 1 - lines) >= 0
      invariant Progress2(p1, p2, done)
      decreases lines
    {
      Line8Regs2(p1, p2, done);
      done, lines := done + 8, lines - 1;
      if lines > 0 { continue; }
      if lines != 0 { break; }
    }
    XoredIs2(old(p1[..]), old(p2[..]), done, p1[..]);
  }

  method Xor8RegsP5(bytes: nat, size: nat, p1: array<Word>, p2: array<Word>,
                    p3: array<Word>, p4: array<Word>, p5: array<Word>)
    requires size > 0 && Lines(bytes, size) >= 1
    requires 8 * Lines(bytes, size) <= p1.Length && 8 * Lines(bytes, size) <= p2.Length &&
             8 * Lines(bytes, size) <= p3.Length && 8 * Lines(bytes, size) <= p4.Length &&
             8 * Lines(bytes, size) <= p5.Length
    modifies p1
    ensures p1[..] == Xored(old(p1[..]), [old(p2[..]), old(p3[..]), old(p4[..]), old(p5[..])], 8 * Lines(bytes, size))
  {
    hide Xor, Xored, Lines, Xor4;
    var lines: int := Lines(bytes, size) - 1;
    var done := 0;
    while true
      invariant 0 <= lines && done == 8 * (Lines(bytes, size) - 1 - lines) >= 0
      invariant Progress5(p1, p2, p3, p4, p5, done)
      decreases lines
    {
      Line8Regs5(p1, p2, p3, p4, p5, done);
      done, lines := done + 8, lines - 1;
      if lines > 0 { continue; }
      if lines != 0 { break; }
    }
    XoredIs5(old(p1[..]), old(p2[..]), old(p3[..]), old(p4[..]), old(p5[..]), done, p1[..]);
  }

  method Xor32Regs2(bytes: nat, size: nat, p1: array<Word>, p2: array<Word>)
    requires size > 0 && Lines(bytes, size) >= 1
    requires 8 * Lines(bytes, size) <= p1.Length && 8 * Lines(bytes, size) <= p2.Length
    modifies p1
    ensures p1[..] == Xored(old(p1[..]), [old(p2[..])], 8 * Lines(bytes, size))
  {
    hide Xor, Xored, Lines;
    var lines: int := Lines(bytes, size);
    var done := 0;
    while true
      invariant 1 <= lines && done == 8 * (Lines(bytes, size) - lines) >= 0
      invariant Progress2(p1, p2, done)
      decreases lines
    {
      Line32Regs2(p1, p2, done);
      done, lines := done + 8, lines - 1;
      if lines <= 0 { break; }
    }
    XoredIs2(old(p1[..]), old(p2[..]), done, p1[..]);
  }

  method Xor32Regs5(bytes: nat, size: nat, p1: array<Word>, p2: array<Word>,
                    p3: array<Word>, p4: array<Word>, p5: array<Word>)
    requires size > 0 && Lines(bytes, size) >= 1
    requires 8 * Lines(bytes, size) <= p1.Length && 8 * Lines(bytes, size) <= p2.Length &&
             8 * Lines(bytes, size) <= p3.Length && 8 * Lines(bytes, size) <= p4.Length &&
             8 * Lines(bytes, size) <= p5.Length
    modifies p1
    ensures p1[..] == Xored(old(p1[..]), [old(p2[..]), old(p3[..]), old(p4[..]), old(p5[..])], 8 * Lines(bytes, size))
  {
    hide Xor, Xored, Lines, Xor4;
    var lines: int := Lines(bytes, size);
    var done := 0;
    while true
      invariant 1 <= lines && done == 8 * (Lines(bytes, size) - lines) >= 0
      invariant Progress5(p1, p2, p3, p4, p5, done)
      decreases lines
    {
      Line32Regs5(p1, p2, p3, p4, p5, done);
      done, lines := done + 8, lines - 1;
      if lines <= 0 { break; }
    }
    XoredIs5(old(p1[..]), old(p2[..]), old(p3[..]), old(p4[..]), old(p5[..]), done, p1[..]);
  }

  method Xor32RegsP2(bytes: nat, size: nat, p1: array<Word>, p2: array<Word>)
    requires size > 0 && Lines(bytes, size) >= 1
    requires 8 * Lines(bytes, size) <= p1.Length && 8 * Lines(bytes, size) <= p2.Length
    modifies p1
    ensures p1[..] == Xored(old(p1[..]), [old(p2[..])], 8 * Lines(bytes, size))
  {
    hide Xor, Xored, Lines;
    var lines: int := Lines(bytes, size) - 1;
    var done := 0;
    while true
      invariant 0 <= lines && done == 8 * (Lines(bytes, size) - 1 - lines) >= 0
      invariant Progress2(p1, p2, done)
      decreases lines
    {
      Line32Regs2(p1, p2, done);
      done, lines := done + 8, lines - 1;
      if lines > 0 { continue; }
      if lines != 0 { break; }
    }
    XoredIs2(old(p1[..]), old(p2[..]), done, p1[..]);
  }

  method Xor32RegsP5(bytes: nat, size: nat, p1: array<Word>, p2: array<Word>,
                     p3: array<Word>, p4: array<Word>, p5: array<Word>)
    requires size > 0 && Lines(bytes, size) >= 1
    requires 8 * Lines(bytes, size) <= p1.Length && 8 * Lines(bytes, size) <= p2.Length &&
             8 * Lines(bytes, size) <= p3.Length && 8 * Lines(bytes, size) <= p4.Length &&
             8 * Lines(bytes, size) <= p5.Length
    modifies p1
    ensures p1[..] == Xored(old(p1[..]), [old(p2[..]), old(p3[..]), old(p4[..]), old(p5[..])], 8 * Lines(bytes, size))
  {
    hide Xor, Xored, Lines, Xor4;
    var lines: int := Lines(bytes, size) - 1;
    var done := 0;
    while true
      invariant 0 <= lines && done == 8 * (Lines(bytes, size) - 1 - lines) >= 0
      invariant Progress5(p1, p2, p3, p4, p5, done)
      decreases lines
    {
      Line32Regs5(p1, p2, p3, p4, p5, done);
      done, lines := done + 8, lines - 1;
      if lines > 0 { continue; }
      if lines != 0 { break; }
    }
    XoredIs5(old(p1[..]), old(p2[..]), old(p3[..]), old(p4[..]), old(p5[..]), done, p1[..]);
  }

  // ---------------------------------------------------------------- any number of sources

  lemma {:induction false} ColumnConcat(s: seq<seq<Word>>, t: seq<seq<Word>>, i: nat)
    requires (forall x | x in s :: i < |x|) && (forall x | x in t :: i < |x|)
    ensures Column(s + t, i) == Column(s, i) + Column(t, i)
  {
    if s == [] {
      assert s + t == t;
    } else {
      assert (s + t)[1..] == s[1..] + t;
      ColumnConcat(s[1..], t, i);
    }
  }

  lemma {:induction false} MixConcat(x: Word, c: seq<Word>, d: seq<Word>)
    ensures Mix(x, c + d) == Mix(Mix(x, c), d)
    decreases |c|
  {
    hide Xor;
    if c == [] {
      assert c + d == d;
    } else {
      assert (c + d)[1..] == c[1..] + d;
      MixConcat(Xor(x, c[0]), c[1..], d);
    }
  }

  /** One kernel call with many sources is a chain of calls with fewer, split anywhere. */
  lemma CallsCompose(block: seq<Word>, s: seq<seq<Word>>, t: seq<seq<Word>>, n: nat)
    requires n <= |block| && (forall x | x in s :: n <= |x|) && (forall x | x in t :: n <= |x|)
    ensures Xored(block, s + t, n) == Xored(Xored(block, s, n), t, n)
  {
    hide Mix, Column;
    forall i: nat | i < n ensures Mix(block[i], Column(s + t, i)) == Mix(Mix(block[i], Column(s, i)), Column(t, i)) {
      ColumnConcat(s, t, i);
      MixConcat(block[i], Column(s, i), Column(t, i));
    }
  }

  // ---------------------------------------------------------------- words of a machine

  ghost predicate Narrow(words: seq<Word>, w: nat) {
    forall i: nat | i < |words| :: words[i] < Pow2(w)
  }

  lemma {:induction false} MixKeepsWidth(x: Word, c: seq<Word>, w: nat)
    requires x < Pow2(w) && Narrow(c, w)
    ensures Mix(x, c) < Pow2(w)
    decreases |c|
  {
    hide Xor, Pow2;
    if c != [] {
      XorKeepsWidth(x, c[0], w);
      MixKeepsWidth(Xor(x, c[0]), c[1..], w);
    }
  }

  lemma {:induction false} ColumnNarrow(sources: seq<seq<Word>>, i: nat, w: nat)
    requires forall s | s in sources :: i < |s| && Narrow(s, w)
    ensures Narrow(Column(sources, i), w)
  {
    hide Pow2;
    if sources != [] { ColumnNarrow(sources[1..], i, w); }
  }

  /** Blocks of machine words stay blocks of machine words, whatever their width. */
  lemma XoredKeepsWidth(block: seq<Word>, sources: seq<seq<Word>>, n: nat, w: nat)
    requires n <= |block| && (forall s | s in sources :: n <= |s|)
    requires Narrow(block, w) && forall s | s in sources :: Narrow(s, w)
    ensures Narrow(Xored(block, sources, n), w)
  {
    hide Mix, Column, Pow2;
    forall i: nat | i < |block| ensures Xored(block, sources, n)[i] < Pow2(w) {
      if i < n {
        ColumnNarrow(sources, i, w);
        MixKeepsWidth(block[i], Column(sources, i), w);
      }
    }
  }

  // ---------------------------------------------------------------- recovery

  /** The start value can be taken out of the chain. */
  lemma {:induction false} MixFromZero(x: Word, c: seq<Word>)
    ensures Mix(x, c) == Xor(x, Mix(0, c))
    decreases |c|
  {
    hide Xor;
    XorCancels(x);
    if c != [] {
      XorCancels(c[0]);
      MixFromZero(Xor(x, c[0]), c[1..]);
      MixFromZero(c[0], c[1..]);
      XorRegroups(x, c[0], Mix(0, c[1..]));
    }
  }

  /** A word mixed in twice is gone. */
  lemma MixTwice(x: Word, c: seq<Word>)
    ensures Mix(Mix(x, c), c) == x
  {
    hide Xor, Mix;
    var y := Mix(0, c);
    MixFromZero(x, c);
    MixFromZero(Mix(x, c), c);
    XorRegroups(x, y, y);
    XorCancels(y);
    XorCancels(x);
  }

  /** A source can be moved past the others. */
  lemma MixMoves(x: Word, c: seq<Word>, w: Word)
    ensures Mix(x, c + [w]) == Mix(x, [w] + c)
  {
    hide Xor, Mix;
    MixConcat(x, c, [w]);
    MixConcat(x, [w], c);
    MixOne(Mix(x, c), w);
    MixOne(x, w);
    var y := Mix(0, c);
    MixFromZero(x, c);
    MixFromZero(Xor(x, w), c);
    XorRegroups(x, y, w);
    XorRegroups(x, w, y);
    XorCommutes(y, w);
  }

  /** RAID-5 recovery: the parity of any number of blocks, xored with all blocks but one, is the one
      left out. */
  lemma ParityRecovers(blocks: seq<seq<Word>>, lost: nat, n: nat)
    requires lost < |blocks| && forall b | b in blocks :: |b| == n
    ensures Xored(Parity(blocks, n), blocks[..lost] + blocks[lost + 1..], n) == blocks[lost]
  {
    hide Mix, Column, Xor;
    var before, rest := blocks[..lost], blocks[lost + 1..];
    forall i: nat | i < n
      ensures Mix(Mix(0, Column(blocks, i)), Column(before + rest, i)) == blocks[lost][i]
    {
      RecoverWord(blocks, lost, i);
    }
  }

  /** The parity: a zero block xored with every block. */
  ghost function Parity(blocks: seq<seq<Word>>, n: nat): (p: seq<Word>)
    requires forall b | b in blocks :: |b| == n
    ensures |p| == n
  {
    Xored(seq(n, _ => 0), blocks, n)
  }

  lemma RecoverWord(blocks: seq<seq<Word>>, lost: nat, i: nat)
    requires lost < |blocks| && forall b | b in blocks :: i < |b|
    ensures Mix(Mix(0, Column(blocks, i)), Column(blocks[..lost] + blocks[lost + 1..], i)) == blocks[lost][i]
  {
    hide Mix, Column, Xor;
    var before, rest, word := blocks[..lost], blocks[lost + 1..], blocks[lost][i];
    var c, d := Column(before, i), Column(rest, i);
    assert blocks == before + ([blocks[lost]] + rest);
    ColumnConcat(before, [blocks[lost]] + rest, i);
    ColumnConcat([blocks[lost]], rest, i);
    ColumnConcat(before, rest, i);
    ColumnOne(blocks[lost], i);
    RecoverColumn(c, word, d);
  }

  lemma ColumnOne(b: seq<Word>, i: nat)
    requires i < |b|
    ensures Column([b], i) == [b[i]]
  {}

  lemma RecoverColumn(c: seq<Word>, w: Word, d: seq<Word>)
    ensures Mix(Mix(0, c + ([w] + d)), c + d) == w
  {
    hide Mix, Xor;
    assert c + ([w] + d) == (c + [w]) + d;
    MixConcat(0, c + [w], d);
    MixMoves(0, c, w);
    MixConcat(0, [w] + c, d);
    assert ([w] + c) + d == [w] + (c + d);
    MixConcat(0, [w], c + d);
    MixOne(0, w);
    XorCancels(w);
    MixTwice(w, c + d);
  }
}
