/** The numbers that RFC 1951 publishes, against the closed forms, lists and canonical codes used here. */
module Published {
  import opened Bits
  import opened Huffman
  import opened Deflate
  import opened Options
  import Tables
  import Tinflate

  /** The length codes 257 to 285 of section 3.2.5: extra bits and first lengths. */
  lemma LengthCodes(c: nat)
    requires c <= 28
    ensures LengthBits(c) ==
      [0, 0, 0, 0, 0, 0, 0, 0, 1, 1, 1, 1, 2, 2, 2, 2, 3, 3, 3, 3, 4, 4, 4, 4, 5, 5, 5, 5, 0][c]
    ensures LengthBase(c) ==
      [3, 4, 5, 6, 7, 8, 9, 10, 11, 13, 15, 17, 19, 23, 27, 31, 35, 43, 51, 59,
       67, 83, 99, 115, 131, 163, 195, 227, 258][c]
  {
    Tables.LengthTablesAgree(c);
  }

  /** The distance codes of section 3.2.5. */
  lemma DistanceCodes(c: nat)
    requires c <= 29
    ensures DistBits(c) ==
      [0, 0, 0, 0, 1, 1, 2, 2, 3, 3, 4, 4, 5, 5, 6, 6, 7, 7, 8, 8, 9, 9, 10, 10, 11, 11, 12, 12, 13, 13][c]
    ensures DistBase(c) ==
      [1, 2, 3, 4, 5, 7, 9, 13, 17, 25, 33, 49, 65, 97, 129, 193, 257, 385, 513, 769,
       1025, 1537, 2049, 3073, 4097, 6145, 8193, 12289, 16385, 24577][c]
  {
    Tables.DistTablesAgree(c);
  }

  /** The order of the code length code lengths, section 3.2.7. */
  lemma CodeLengthCodes(i: nat)
    requires i < 19
    ensures CodeLengthOrder(i) == [16, 17, 18, 0, 8, 7, 9, 6, 10, 5, 11, 4, 12, 3, 13, 2, 14, 1, 15][i]
  {
  }

  /** How far the repeat codes of section 3.2.7 reach: 3 to 6, 3 to 10 and 11 to 138 times. */
  lemma Repeats(lens: Lengths, x: seq<bool>, y: seq<bool>, z: seq<bool>)
    requires lens != [] && |x| == 2 && |y| == 3 && |z| == 7
    ensures 3 <= |Again(x).Apply(lens).value| - |lens| <= 6
    ensures 3 <= |Zeros(y).Apply(lens).value| - |lens| <= 10
    ensures 11 <= |ManyZeros(z).Apply(lens).value| - |lens| <= 138
  {
    ValueBound(x);
    ValueBound(y);
    ValueBound(z);
    Pow2Values();
  }

  /** A literal or length symbol's fixed code, section 3.2.6: a number and how many bits of it. */
  function FixedCode(s: nat): (nat, nat)
    requires s < 288
  {
    if s < 144 then (48 + s, 8)  // from 00110000 to 10111111
    else if s < 256 then (400 + (s - 144), 9)  // from 110010000 to 111111111
    else if s < 280 then (s - 256, 7)  // from 0000000 to 0010111
    else (192 + (s - 280), 8)  // from 11000000 to 11000111
  }

  /** The canonical codes of the fixed lengths are those of section 3.2.6. */
  lemma FixedCodes(s: nat)
    requires s < 288
    ensures Codeword(FixedL().lens, s) == CodeBits(FixedCode(s).0, FixedCode(s).1)
  {
    hide CodeBits;
    var lens := FixedL().lens;
    Tinflate.FixedLiteralCountTo(288, 7);
    Tinflate.FixedLiteralCountTo(288, 8);
    ShortOnes(lens, 7);
    assert FirstCode(lens, 8) == 48 && FirstCode(lens, 9) == 400;
    Tinflate.FixedLiteralCountTo(s, lens[s]);
  }

  lemma {:induction false} ShortOnes(lens: Lengths, l: nat)
    requires lens == FixedL().lens && l <= 7
    ensures FirstCode(lens, l) == 0
    decreases l
  {
    if l > 1 {
      Tinflate.FixedLiteralCountTo(288, l - 1);
      ShortOnes(lens, l - 1);
    } else if l == 1 {
      assert Count(lens, 0) == 0;
    }
  }

  lemma FixedDistances(s: nat)
    requires s < 32
    ensures Codeword(FixedD().lens, s) == CodeBits(s, 5)
  {
    hide CodeBits;
    NoDistances(FixedD().lens, 5);
    Tinflate.FixedDistanceCountTo(s, 5);
  }

  lemma {:induction false} NoDistances(lens: Lengths, l: nat)
    requires lens == FixedD().lens && l <= 5
    ensures FirstCode(lens, l) == 0
    decreases l
  {
    hide FixedD, CountTo;
    if l > 1 {
      Tinflate.FixedDistanceCountTo(32, l - 1);
      NoDistances(lens, l - 1);
      assert |lens| == 32 by { DistanceCount(); }
      assert Count(lens, l - 1) == 0;
    } else if l == 1 {
      assert Count(lens, 0) == 0 && FirstCode(lens, 0) == 0;
    }
  }

  lemma DistanceCount()
    ensures |FixedD().lens| == 32
  {
  }

  // ---- which lists of code lengths are accepted

  lemma {:induction false} NoneUsed(lens: Lengths, n: nat)
    requires n <= |lens|
    ensures UsedTo(lens, n) == 0 <==> forall i :: 0 <= i < n ==> lens[i] == 0
  {
    if n > 0 {
      NoneUsed(lens, n - 1);
    }
  }

  /** Of the first `n` symbols only `s` has a code. */
  predicate OnlyOne(lens: Lengths, n: nat, s: int) {
    n <= |lens| && 0 <= s < n && lens[s] > 0 && forall i :: 0 <= i < n && i != s ==> lens[i] == 0
  }

  lemma {:induction false} OneUsed(lens: Lengths, n: nat)
    requires n <= |lens|
    ensures UsedTo(lens, n) == 1 <==> OnlyOne(lens, n, MaxSymTo(lens, n))
    ensures forall s :: OnlyOne(lens, n, s) ==> s == MaxSymTo(lens, n) && UsedTo(lens, n) == 1
  {
    if n > 0 {
      OneUsed(lens, n - 1);
      NoneUsed(lens, n - 1);
      forall s | OnlyOne(lens, n, s) && s < n - 1 ensures OnlyOne(lens, n - 1, s) {
      }
      assert lens[n - 1] == 0 && OnlyOne(lens, n - 1, MaxSymTo(lens, n - 1)) ==> OnlyOne(lens, n, MaxSymTo(lens, n));
    }
  }

  /** What a single code takes of the code space: at most half. */
  lemma {:induction false} OneTakes(lens: Lengths, n: nat)
    requires n <= |lens| && UsedTo(lens, n) <= 1
    ensures KraftTo(lens, n) <= 16384
  {
    if n > 0 {
      OneTakes(lens, n - 1);
      Pow2Values();
      if lens[n - 1] > 0 {
        Pow2Mono(MAX_BITS - lens[n - 1], 14);
        NoCode(lens, n - 1);
      }
    }
  }

  lemma {:induction false} NoCode(lens: Lengths, n: nat)
    requires n <= |lens| && UsedTo(lens, n) == 0
    ensures KraftTo(lens, n) == 0
  {
    if n > 0 {
      NoCode(lens, n - 1);
    }
  }

  /** What is accepted: a list without codes, with one code of one bit, or with a complete code. */
  lemma AcceptableExact(lens: Lengths)
    ensures Acceptable(lens) <==>
      || (forall i :: 0 <= i < |lens| ==> lens[i] == 0)
      || (exists s :: OnlyOne(lens, |lens|, s) && lens[s] == 1)
      || Kraft(lens) == 32768
  {
    NoneUsed(lens, |lens|);
    OneUsed(lens, |lens|);
    if Used(lens) <= 1 {
      OneTakes(lens, |lens|);
    }
    if Used(lens) == 1 {
      assert OnlyOne(lens, |lens|, MaxSym(lens));
    }
  }
}
