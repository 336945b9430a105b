/** Canonical Huffman codes as section 3.2.2 of RFC 1951 assigns them to code lengths. */
module Huffman {
  import opened Bits

  const MAX_BITS: nat := 15

  /** Code lengths per symbol; length 0 means that the symbol has no code. */
  type Lengths = s: seq<nat> | forall i :: 0 <= i < |s| ==> s[i] <= MAX_BITS

  predicate HasCode(lens: Lengths, s: nat) {
    s < |lens| && lens[s] > 0
  }

  /** How many of the first `n` symbols have code length `l`. */
  function CountTo(lens: Lengths, n: nat, l: nat): (c: nat)
    requires n <= |lens|
    ensures c <= n
  {
    if n == 0 then 0 else CountTo(lens, n - 1, l) + (if lens[n - 1] == l then 1 else 0)
  }

  /** bl_count: the number of codes of length `l`, none of length 0. */
  function Count(lens: Lengths, l: nat): nat {
    if l == 0 then 0 else CountTo(lens, |lens|, l)
  }

  /** next_code: the first code of length `l`. */
  function FirstCode(lens: Lengths, l: nat): nat {
    if l == 0 then 0 else 2 * (FirstCode(lens, l - 1) + Count(lens, l - 1))
  }

  /** The position of `s` among the symbols with its code length. */
  function Rank(lens: Lengths, s: nat): nat
    requires s < |lens|
  {
    CountTo(lens, s, lens[s])
  }

  function Code(lens: Lengths, s: nat): nat
    requires s < |lens|
  {
    FirstCode(lens, lens[s]) + Rank(lens, s)
  }

  /** The bits of the code of `s`, most significant first. */
  function Codeword(lens: Lengths, s: nat): (w: seq<bool>)
    requires s < |lens|
    ensures |w| == lens[s]
  {
    CodeBits(Code(lens, s), lens[s])
  }

  /** The number of codes shorter than `l`. */
  function Shorter(lens: Lengths, l: nat): nat {
    if l == 0 then 0 else Shorter(lens, l - 1) + Count(lens, l - 1)
  }

  function UsedTo(lens: Lengths, n: nat): (c: nat)
    requires n <= |lens|
    ensures c <= n
  {
    if n == 0 then 0 else UsedTo(lens, n - 1) + (if lens[n - 1] > 0 then 1 else 0)
  }

  /** The number of symbols that have a code. */
  function Used(lens: Lengths): nat {
    UsedTo(lens, |lens|)
  }

  function KraftTo(lens: Lengths, n: nat): nat
    requires n <= |lens|
  {
    if n == 0 then 0
    else KraftTo(lens, n - 1) + (if lens[n - 1] > 0 then Pow2(MAX_BITS - lens[n - 1]) else 0)
  }

  /** One, in the units of the Kraft sum. */
  const KRAFT_ONE: nat := 32768

  /** The Kraft sum, in units of 2^-15. */
  function Kraft(lens: Lengths): nat {
    KraftTo(lens, |lens|)
  }

  /** The codes fill the code space exactly. */
  predicate Complete(lens: Lengths) {
    Kraft(lens) == KRAFT_ONE
  }

  /** The codes do not overdraw the code space. */
  predicate Fits(lens: Lengths) {
    Kraft(lens) <= KRAFT_ONE
  }

  /** The symbol with the largest number that has a code, -1 if there is none. */
  function MaxSymTo(lens: Lengths, n: nat): (m: int)
    requires n <= |lens|
    ensures -1 <= m < n
    ensures m >= 0 ==> lens[m] > 0
    ensures forall i :: m < i < n ==> lens[i] == 0
  {
    if n == 0 then -1 else if lens[n - 1] > 0 then n - 1 else MaxSymTo(lens, n - 1)
  }

  function MaxSym(lens: Lengths): (m: int)
    ensures -1 <= m < |lens|
  {
    MaxSymTo(lens, |lens|)
  }

  /** Code length lists that may be sent: none used, one code of one bit, or a complete code. */
  predicate Acceptable(lens: Lengths) {
    || Used(lens) == 0
    || (Used(lens) == 1 && MaxSym(lens) >= 0 && lens[MaxSym(lens)] == 1)
    || (Used(lens) >= 2 && Complete(lens))
  }

  /** The code space left for length `l`, in codes of that length; negative when overdrawn. */
  function Avail(lens: Lengths, l: nat): int {
    if l == 0 then 1 else 2 * (Avail(lens, l - 1) - Count(lens, l - 1))
  }

  // ---- counting

  lemma {:induction false} CountMono(lens: Lengths, m: nat, n: nat, l: nat)
    requires m <= n <= |lens|
    ensures CountTo(lens, m, l) <= CountTo(lens, n, l)
    ensures m < n && lens[m] == l ==> CountTo(lens, m, l) < CountTo(lens, n, l)
    decreases n
  {
    if m < n {
      if m < n - 1 {
        CountMono(lens, m, n - 1, l);
      }
    }
  }

  /** Among the symbols of one length every rank below the count belongs to exactly one. */
  lemma {:induction false} SymbolOfRank(lens: Lengths, n: nat, l: nat, r: nat) returns (s: nat)
    requires n <= |lens| && r < CountTo(lens, n, l)
    ensures s < n && lens[s] == l && Rank(lens, s) == r
  {
    if CountTo(lens, n - 1, l) > r {
      s := SymbolOfRank(lens, n - 1, l, r);
    } else {
      s := n - 1;
    }
  }

  lemma RankInjective(lens: Lengths, s: nat, t: nat)
    requires s < |lens| && t < |lens| && lens[s] == lens[t]
    requires Rank(lens, s) == Rank(lens, t)
    ensures s == t
  {
    if s < t {
      CountMono(lens, s, t, lens[s]);
    } else if t < s {
      CountMono(lens, t, s, lens[s]);
    }
  }

  lemma RankBound(lens: Lengths, s: nat)
    requires HasCode(lens, s)
    ensures Rank(lens, s) < Count(lens, lens[s])
  {
    CountMono(lens, s, |lens|, lens[s]);
  }

  lemma {:induction false} ShorterMono(lens: Lengths, a: nat, b: nat)
    requires a < b
    ensures Shorter(lens, a) + Count(lens, a) <= Shorter(lens, b)
    decreases b
  {
    if a < b - 1 {
      ShorterMono(lens, a, b - 1);
    }
  }

  /** The number of used symbols among the first `n`, counted per length up to `l`. */
  function LevelUsed(lens: Lengths, n: nat, l: nat): nat
    requires n <= |lens|
  {
    if l == 0 then 0 else LevelUsed(lens, n, l - 1) + CountTo(lens, n, l)
  }

  lemma {:induction false} LevelUsedStep(lens: Lengths, n: nat, l: nat)
    requires 0 < n <= |lens|
    ensures LevelUsed(lens, n, l) == LevelUsed(lens, n - 1, l) + (if 0 < lens[n - 1] <= l then 1 else 0)
  {
    if l > 0 {
      LevelUsedStep(lens, n, l - 1);
    }
  }

  lemma {:induction false} LevelZero(lens: Lengths, l: nat)
    ensures LevelUsed(lens, 0, l) == 0 && LevelKraft(lens, 0, l) == 0
  {
    if l > 0 {
      LevelZero(lens, l - 1);
    }
  }

  lemma {:induction false} UsedByLevel(lens: Lengths, n: nat)
    requires n <= |lens|
    ensures UsedTo(lens, n) == LevelUsed(lens, n, MAX_BITS)
  {
    if n == 0 {
      LevelZero(lens, MAX_BITS);
    } else {
      UsedByLevel(lens, n - 1);
      LevelUsedStep(lens, n, MAX_BITS);
    }
  }

  lemma {:induction false} ShorterByLevel(lens: Lengths, l: nat)
    ensures Shorter(lens, l + 1) == LevelUsed(lens, |lens|, l)
  {
    if l > 0 {
      ShorterByLevel(lens, l - 1);
    } else {
      assert Shorter(lens, 1) == Shorter(lens, 0) + Count(lens, 0);
    }
  }

  /** All codes together: those of at most 15 bits. */
  lemma ShorterAll(lens: Lengths)
    ensures Shorter(lens, 16) == Used(lens)
  {
    ShorterByLevel(lens, MAX_BITS);
    UsedByLevel(lens, |lens|);
  }

  // ---- the Kraft sum

  /** The Kraft sum of the first `n` symbols, counted per length up to `l`. */
  function LevelKraft(lens: Lengths, n: nat, l: nat): nat
    requires n <= |lens|
  {
    if l == 0 then 0
    else LevelKraft(lens, n, l - 1) + CountTo(lens, n, l) * (if l <= MAX_BITS then Pow2(MAX_BITS - l) else 0)
  }

  lemma {:induction false} LevelKraftStep(lens: Lengths, n: nat, l: nat)
    requires 0 < n <= |lens| && l <= MAX_BITS
    ensures LevelKraft(lens, n, l)
         == LevelKraft(lens, n - 1, l) + (if 0 < lens[n - 1] <= l then Pow2(MAX_BITS - lens[n - 1]) else 0)
  {
    if l > 0 {
      LevelKraftStep(lens, n, l - 1);
      AddOne(CountTo(lens, n - 1, l), Pow2(MAX_BITS - l));
      hide Pow2;
    }
  }

  lemma AddOne(c: nat, p: nat)
    ensures (c + 1) * p == c * p + p
  {
  }

  lemma {:induction false} KraftByLevel(lens: Lengths, n: nat)
    requires n <= |lens|
    ensures KraftTo(lens, n) == LevelKraft(lens, n, MAX_BITS)
  {
    if n == 0 {
      LevelZero(lens, MAX_BITS);
    } else {
      KraftByLevel(lens, n - 1);
      LevelKraftStep(lens, n, MAX_BITS);
    }
  }

  /** The codes up to length `l` occupy a prefix of the code space whose size is their Kraft sum. */
  lemma {:induction false} KraftPrefix(lens: Lengths, l: nat)
    requires l <= MAX_BITS
    ensures (FirstCode(lens, l) + Count(lens, l)) * Pow2(MAX_BITS - l) == LevelKraft(lens, |lens|, l)
  {
    if l == 0 {
      assert FirstCode(lens, 0) == 0 && Count(lens, 0) == 0;
    } else {
      KraftPrefix(lens, l - 1);
      var f := FirstCode(lens, l - 1) + Count(lens, l - 1);
      var c, p := Count(lens, l), Pow2(MAX_BITS - l);
      assert Pow2(MAX_BITS - (l - 1)) == 2 * p;
      Distribute(f, c, p);
    }
  }

  lemma Distribute(f: nat, c: nat, p: nat)
    ensures (2 * f + c) * p == f * (2 * p) + c * p
  {
  }

  lemma {:induction false} LevelKraftMono(lens: Lengths, a: nat, b: nat)
    requires a <= b
    ensures LevelKraft(lens, |lens|, a) <= LevelKraft(lens, |lens|, b)
    decreases b
  {
    hide Pow2, CountTo;
    if a < b {
      LevelKraftMono(lens, a, b - 1);
    }
  }

  /** Free and occupied code space of length `l` add up to all of it. */
  lemma {:induction false} AvailFirstCode(lens: Lengths, l: nat)
    ensures Avail(lens, l) + FirstCode(lens, l) == Pow2(l)
  {
    if l > 0 {
      AvailFirstCode(lens, l - 1);
    }
  }

  /** What is left after length 15 is the gap of the Kraft sum. */
  lemma AvailKraft(lens: Lengths)
    ensures Avail(lens, 16) == 2 * (KRAFT_ONE - Kraft(lens))
  {
    AvailFirstCode(lens, MAX_BITS);
    KraftPrefix(lens, MAX_BITS);
    KraftByLevel(lens, |lens|);
    Pow2Values();
  }

  lemma KraftPrefixFits(lens: Lengths, l: nat)
    requires Fits(lens) && l <= MAX_BITS
    ensures (FirstCode(lens, l) + Count(lens, l)) * Pow2(MAX_BITS - l) <= KRAFT_ONE
  {
    KraftPrefix(lens, l);
    KraftByLevel(lens, |lens|);
    LevelKraftMono(lens, l, MAX_BITS);
  }

  lemma MulCancel(a: nat, b: nat, p: nat)
    requires p > 0 && a * p <= b * p
    ensures a <= b
  {
    if b < a {
      MulMono(p, b, a);
      assert false;
    }
  }

  /** No length is overdrawn when the Kraft sum is at most one. */
  lemma CountFits(lens: Lengths, l: nat)
    requires Fits(lens) && l <= MAX_BITS
    ensures Count(lens, l) <= Avail(lens, l)
    ensures FirstCode(lens, l) + Count(lens, l) <= Pow2(l)
  {
    hide Pow2, FirstCode, Count, Avail;
    KraftPrefixFits(lens, l);
    Pow2Add(l, MAX_BITS - l);
    assert Pow2(MAX_BITS) == KRAFT_ONE by { Pow2Values(); }
    MulCancel(FirstCode(lens, l) + Count(lens, l), Pow2(l), Pow2(MAX_BITS - l));
    AvailFirstCode(lens, l);
  }

  lemma CodeFits(lens: Lengths, s: nat)
    requires Fits(lens) && HasCode(lens, s)
    ensures Code(lens, s) < Pow2(lens[s])
  {
    RankBound(lens, s);
    CountFits(lens, lens[s]);
  }

  lemma {:induction false} KraftMono(lens: Lengths, m: nat, n: nat)
    requires m <= n <= |lens|
    ensures KraftTo(lens, m) <= KraftTo(lens, n)
    decreases n
  {
    if m < n {
      KraftMono(lens, m, n - 1);
    }
  }

  /** A single code shorter than nothing else never overdraws the code space. */
  lemma {:induction false} KraftFew(lens: Lengths, n: nat)
    requires n <= |lens| && UsedTo(lens, n) <= 1
    ensures KraftTo(lens, n) <= UsedTo(lens, n) * Pow2(14)
  {
    hide Pow2;
    if n > 0 {
      KraftFew(lens, n - 1);
      if lens[n - 1] > 0 {
        Pow2Mono(MAX_BITS - lens[n - 1], 14);
      }
    }
  }

  lemma AcceptableFits(lens: Lengths)
    requires Acceptable(lens)
    ensures Fits(lens)
  {
    if Used(lens) <= 1 {
      KraftFew(lens, |lens|);
      Pow2Values();
    }
  }

  // ---- decoding

  /** The code of symbol `s` stands at position `cur`. */
  ghost predicate CodeAt(src: seq<Byte>, cur: nat, lens: Lengths, s: nat) {
    HasCode(lens, s) && At(src, cur, Codeword(lens, s))
  }

  /** Reading a code by value or bit by bit is the same. */
  lemma CodeAtIff(src: seq<Byte>, cur: nat, lens: Lengths, s: nat)
    requires Fits(lens) && HasCode(lens, s)
    ensures CodeAt(src, cur, lens, s) <==> CodeBetween(src, cur, cur + lens[s]) == Code(lens, s)
  {
    CodeFits(lens, s);
    CodeIff(src, cur, Code(lens, s), lens[s]);
  }

  /** Codes of length `b` start where all codes of the shorter length `a`, extended, have ended. */
  lemma {:induction false} LongerStartsLater(lens: Lengths, src: seq<Byte>, cur: nat, a: nat, b: nat)
    requires a < b
    requires CodeBetween(src, cur, cur + a) < FirstCode(lens, a) + Count(lens, a)
    ensures CodeBetween(src, cur, cur + b) < FirstCode(lens, b)
    decreases b
  {
    if a < b - 1 {
      LongerStartsLater(lens, src, cur, a, b - 1);
    }
    assert cur + b - 1 == cur + (b - 1);
    assert CodeBetween(src, cur, cur + b) == 2 * CodeBetween(src, cur, cur + (b - 1)) + BitNum(BitAt(src, cur + (b - 1)));
    assert FirstCode(lens, b) == 2 * (FirstCode(lens, b - 1) + Count(lens, b - 1));
  }

  /** Two symbols whose codes read alike are the same. */
  lemma PrefixFreeValue(src: seq<Byte>, cur: nat, lens: Lengths, s: nat, t: nat)
    requires HasCode(lens, s) && HasCode(lens, t) && lens[s] <= lens[t]
    requires CodeBetween(src, cur, cur + lens[s]) == Code(lens, s)
    requires CodeBetween(src, cur, cur + lens[t]) == Code(lens, t)
    ensures s == t
  {
    hide FirstCode, CountTo, CodeBetween;
    RankBound(lens, s);
    if lens[s] < lens[t] {
      LongerStartsLater(lens, src, cur, lens[s], lens[t]);
    } else {
      RankInjective(lens, s, t);
    }
  }

  /** No code is a prefix of another: at most one symbol stands at a position. */
  lemma PrefixFree(src: seq<Byte>, cur: nat, lens: Lengths, s: nat, t: nat)
    requires Fits(lens) && CodeAt(src, cur, lens, s) && CodeAt(src, cur, lens, t)
    ensures s == t
  {
    hide Fits, Codeword, Code, CodeBetween, At;
    CodeAtIff(src, cur, lens, s);
    CodeAtIff(src, cur, lens, t);
    if lens[s] <= lens[t] {
      PrefixFreeValue(src, cur, lens, s, t);
    } else {
      PrefixFreeValue(src, cur, lens, t, s);
    }
  }

  /** A code left out by all lengths up to `l` continues into the free code space. */
  lemma CodeBelowAvail(src: seq<Byte>, cur: nat, lens: Lengths, l: nat)
    ensures CodeBetween(src, cur, cur + l) - FirstCode(lens, l) < Avail(lens, l)
  {
    CodeBound(src, cur, cur + l);
    AvailFirstCode(lens, l);
  }

  // ---- the sorted symbol table

  /** `table` lists the symbols that have a code by length, then by number. */
  ghost predicate Sorted(lens: Lengths, table: seq<nat>) {
    && |table| >= Used(lens)
    && forall s :: HasCode(lens, s) ==> TableAt(lens, table, s)
  }

  ghost predicate TableAt(lens: Lengths, table: seq<nat>, s: nat)
    requires HasCode(lens, s)
  {
    Slot(lens, s) < |table| && table[Slot(lens, s)] == s
  }

  /** The place of symbol `s` in the sorted table. */
  function Slot(lens: Lengths, s: nat): nat
    requires s < |lens|
  {
    Shorter(lens, lens[s]) + Rank(lens, s)
  }

  lemma SlotBound(lens: Lengths, s: nat)
    requires HasCode(lens, s)
    ensures Slot(lens, s) < Used(lens)
  {
    RankBound(lens, s);
    ShorterMono(lens, lens[s], 16);
    ShorterAll(lens);
  }

  /** Slots are ordered by code length first and symbol second. */
  lemma SlotOrder(lens: Lengths, s: nat, t: nat)
    requires HasCode(lens, s) && HasCode(lens, t)
    ensures Slot(lens, s) < Slot(lens, t) <==> lens[s] < lens[t] || (lens[s] == lens[t] && s < t)
  {
    RankBound(lens, s);
    RankBound(lens, t);
    if lens[s] < lens[t] {
      ShorterMono(lens, lens[s], lens[t]);
    } else if lens[t] < lens[s] {
      ShorterMono(lens, lens[t], lens[s]);
    } else if s < t {
      CountMono(lens, s, t, lens[s]);
    } else {
      CountMono(lens, t, s, lens[s]);
    }
  }

  /** Every place below the number of codes is the slot of a symbol. */
  lemma {:induction false} SlotSurjective(lens: Lengths, i: nat, l: nat) returns (s: nat)
    requires i < Shorter(lens, l)
    ensures HasCode(lens, s) && Slot(lens, s) == i
    decreases l
  {
    if i < Shorter(lens, l - 1) {
      s := SlotSurjective(lens, i, l - 1);
    } else {
      s := SymbolOfRank(lens, |lens|, l - 1, i - Shorter(lens, l - 1));
    }
  }

  /** A sorted table holds exactly the used symbols, ordered by length and then by symbol. */
  lemma SortedTable(lens: Lengths, table: seq<nat>)
    requires Sorted(lens, table)
    ensures forall i :: 0 <= i < Used(lens) ==> HasCode(lens, table[i])
    ensures forall i, j :: 0 <= i < j < Used(lens) ==>
      lens[table[i]] < lens[table[j]] || (lens[table[i]] == lens[table[j]] && table[i] < table[j])
    ensures forall s :: HasCode(lens, s) ==> s in table[..Used(lens)]
  {
    ShorterAll(lens);
    forall i | 0 <= i < Used(lens) ensures HasCode(lens, table[i]) && Slot(lens, table[i]) == i {
      var s := SlotSurjective(lens, i, 16);
      assert TableAt(lens, table, s);
    }
    forall i, j | 0 <= i < j < Used(lens)
      ensures lens[table[i]] < lens[table[j]] || (lens[table[i]] == lens[table[j]] && table[i] < table[j])
    {
      SlotOrder(lens, table[i], table[j]);
    }
    forall s | HasCode(lens, s) ensures s in table[..Used(lens)] {
      SlotBound(lens, s);
      assert TableAt(lens, table, s);
      assert table[..Used(lens)][Slot(lens, s)] == s;
    }
  }

  // ---- lists with a single code

  /**
   * The code a list stands for when decoding. A single code of one bit leaves half of the code
   * space unused; the decoder gives that half to the symbol above the single one.
   */
  function Effective(lens: Lengths): (r: Lengths)
    ensures Used(lens) != 1 ==> r == lens
  {
    var m := MaxSym(lens);
    if Used(lens) != 1 || m < 0 then lens
    else if m + 1 < |lens| then lens[m + 1 := 1]
    else lens + [1]
  }

  lemma {:induction false} UnusedZero(lens: Lengths, n: nat)
    requires n <= |lens| && UsedTo(lens, n) == 0
    ensures forall i :: 0 <= i < n ==> lens[i] == 0
  {
    if n > 0 {
      UnusedZero(lens, n - 1);
    }
  }

  lemma {:induction false} UsedBelow(lens: Lengths, n: nat)
    requires n <= |lens|
    ensures UsedTo(lens, n) > 0 <==> MaxSymTo(lens, n) >= 0
    ensures UsedTo(lens, n) > 0 ==> UsedTo(lens, n) == UsedTo(lens, MaxSymTo(lens, n)) + 1
  {
    if n > 0 {
      UsedBelow(lens, n - 1);
    }
  }

  /** With a single code, every other symbol has length zero. */
  lemma SingleShape(lens: Lengths)
    requires Used(lens) == 1
    ensures 0 <= MaxSym(lens) < |lens|
    ensures forall i :: 0 <= i < |lens| && i != MaxSym(lens) ==> lens[i] == 0
  {
    UsedBelow(lens, |lens|);
    UnusedZero(lens, MaxSym(lens));
  }

  ghost predicate TwoCodes(lens: Lengths, m: nat) {
    && m + 1 < |lens| && lens[m] == 1 && lens[m + 1] == 1
    && forall i :: 0 <= i < |lens| && i != m && i != m + 1 ==> lens[i] == 0
  }

  lemma {:induction false} TwoCodesSums(lens: Lengths, m: nat, n: nat, l: nat)
    requires TwoCodes(lens, m) && n <= |lens| && l > 0
    ensures CountTo(lens, n, l) == if l > 1 || n <= m then 0 else if n == m + 1 then 1 else 2
    ensures UsedTo(lens, n) == if n <= m then 0 else if n == m + 1 then 1 else 2
    ensures KraftTo(lens, n) == if n <= m then 0 else if n == m + 1 then Pow2(14) else Pow2(15)
    decreases n
  {
    hide Pow2;
    Pow2Values();
    if n > 0 {
      TwoCodesSums(lens, m, n - 1, l);
    }
  }

  lemma EffectiveShape(lens: Lengths)
    requires Used(lens) == 1 && Acceptable(lens)
    ensures 0 <= MaxSym(lens) && TwoCodes(Effective(lens), MaxSym(lens))
  {
    SingleShape(lens);
  }

  /** What is decoded with is a complete code, unless the list is empty. */
  lemma EffectiveComplete(lens: Lengths)
    requires Acceptable(lens) && Used(lens) > 0
    ensures Complete(Effective(lens)) && Used(Effective(lens)) >= 2
  {
    if Used(lens) == 1 {
      EffectiveShape(lens);
      TwoCodesSums(Effective(lens), MaxSym(lens), |Effective(lens)|, 1);
      Pow2Values();
    }
  }

  lemma {:induction false} SingleCountZero(lens: Lengths, n: nat, l: nat)
    requires n <= |lens| && l > 0 && forall i :: 0 <= i < n ==> lens[i] == 0
    ensures CountTo(lens, n, l) == 0
    decreases n
  {
    if n > 0 {
      SingleCountZero(lens, n - 1, l);
    }
  }

  /** The stand-in code keeps the codes that were sent and adds nothing up to the largest symbol. */
  lemma EffectiveKeeps(lens: Lengths, s: nat)
    requires Acceptable(lens)
    ensures HasCode(lens, s) <==> HasCode(Effective(lens), s) && s <= MaxSym(lens)
    ensures HasCode(lens, s) ==> Effective(lens)[s] == lens[s]
    ensures HasCode(lens, s) ==> Codeword(Effective(lens), s) == Codeword(lens, s)
  {
    if Used(lens) == 1 {
      EffectiveShape(lens);
      SingleShape(lens);
      var m, e := MaxSym(lens), Effective(lens);
      SingleCountZero(lens, m, 1);
      TwoCodesSums(e, m, m, 1);
      FirstOne(lens);
      FirstOne(e);
    }
  }

  lemma FirstOne(lens: Lengths)
    ensures FirstCode(lens, 1) == 0 && Shorter(lens, 1) == 0
  {
    assert FirstCode(lens, 0) == 0 && Count(lens, 0) == 0 && Shorter(lens, 0) == 0;
  }
}
