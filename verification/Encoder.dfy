/** Writing DEFLATE: packing bits into bytes, and lengths and distances into their codes. */
module Encoder {
  import opened Bits
  import opened Huffman
  import opened Deflate
  import opened Options
  import Decoder
  import opened Inflation

  // ---- packing

  /** The first eight bits as a byte, padded with zeros. */
  function FirstByte(w: seq<bool>): (b: Byte) {
    ValueBound(if |w| < 8 then w else w[..8]);
    Pow2Values();
    Pow2Mono(if |w| < 8 then |w| else 8, 8);
    Value(if |w| < 8 then w else w[..8])
  }

  /** Bits packed into bytes, each filled from its least significant bit. */
  function Pack(w: seq<bool>): (s: seq<Byte>)
    ensures |w| <= 8 * |s|
    decreases |w|
  {
    if w == [] then [] else [FirstByte(w)] + Pack(if |w| < 8 then [] else w[8..])
  }

  lemma {:induction false} ValueBit(w: seq<bool>, k: nat)
    requires k < |w|
    ensures NatBit(Value(w), k) == w[k]
    decreases k
  {
    hide Value;
    ValueSplit(w);
    Halved(Value(w), Value(w[1..]), w[0]);
    if k > 0 {
      ValueBit(w[1..], k - 1);
    }
  }

  lemma ValueSplit(w: seq<bool>)
    requires w != []
    ensures Value(w) == (if w[0] then 1 else 0) + 2 * Value(w[1..])
  {
  }

  lemma Halved(v: nat, h: nat, b: bool)
    requires v == (if b then 1 else 0) + 2 * h
    ensures v / 2 == h && (v % 2 == 1 <==> b)
  {
  }

  lemma {:induction false} PackBit(w: seq<bool>, i: nat)
    requires i < |w|
    ensures BitAt(Pack(w), i) == w[i]
    decreases |w|
  {
    if i < 8 {
      ValueBit(if |w| < 8 then w else w[..8], i);
    } else {
      PackBit(w[8..], i - 8);
      assert Pack(w)[i / 8] == Pack(w[8..])[(i - 8) / 8];
    }
  }

  /** Packed bits, followed by anything, stand at the start of the buffer. */
  lemma PackAt(w: seq<bool>, tail: seq<Byte>)
    ensures At(Pack(w) + tail, 0, w)
  {
    forall k | 0 <= k < |w| ensures BitAt(Pack(w) + tail, 0 + k) == w[k] {
      PackBit(w, k);
      assert (Pack(w) + tail)[k / 8] == Pack(w)[k / 8];
    }
  }

  // ---- lengths and distances

  /** The largest length code whose base does not exceed `len`, among the first `c + 1`. */
  function LengthCodeUpTo(len: nat, c: nat): (r: nat)
    requires c <= 27 && len >= 3
    ensures r <= c && LengthBase(r) <= len
    ensures r < c ==> len < LengthBase(r + 1)
  {
    if LengthBase(c) <= len then c else LengthCodeUpTo(len, c - 1)
  }

  function DistCodeUpTo(dist: nat, c: nat): (r: nat)
    requires c <= 29 && dist >= 1
    ensures r <= c && DistBase(r) <= dist
    ensures r < c ==> dist < DistBase(r + 1)
    decreases c
  {
    if c == 0 || DistBase(c) <= dist then c else DistCodeUpTo(dist, c - 1)
  }

  /** Each length code takes over where the one before it ends; 258 has a code of its own. */
  lemma LengthsContiguous(c: nat)
    requires c < 27
    ensures LengthBase(0) == 3 && LengthBase(c + 1) == LengthBase(c) + Pow2(LengthBits(c))
    ensures LengthBase(27) + Pow2(LengthBits(27)) == 259 && LengthBase(28) == 258
  {
    Pow2Values();
  }

  /** Each distance code takes over where the one before it ends. */
  lemma DistancesContiguous(c: nat)
    requires c < 29
    ensures DistBase(c + 1) == DistBase(c) + Pow2(DistBits(c))
  {
    if c < 4 {
      Pow2Values();
    } else if c % 2 == 0 {
      assert (c + 1) / 2 - 1 == c / 2 - 1;
    } else {
      assert (c + 1) / 2 - 1 == c / 2;
      assert Pow2(c / 2) == 2 * Pow2(c / 2 - 1);
    }
  }

  lemma DistancesEnd()
    ensures DistBase(0) == 1 && DistBase(29) + Pow2(DistBits(29)) == 32769
  {
    Pow2Values();
  }

  lemma {:induction false} FieldBitsValue(v: nat, n: nat)
    requires v < Pow2(n)
    ensures Value(FieldBits(v, n)) == v
    decreases n
  {
    if n > 0 {
      FieldBitsCons(v, n);
      FieldBitsValue(v / 2, n - 1);
      assert FieldBits(v, n)[1..] == FieldBits(v / 2, n - 1);
    }
  }

  /** The token for a match of any length and distance that the format can express. */
  function Copy(len: nat, dist: nat): (t: Token)
    requires 3 <= len <= 258 && 1 <= dist <= 32768
  {
    var lc := if len == 258 then 28 else LengthCodeUpTo(len, 27);
    var dc := DistCodeUpTo(dist, 29);
    Match(lc, FieldBits(len - LengthBase(lc), LengthBits(lc)), dc, FieldBits(dist - DistBase(dc), DistBits(dc)))
  }

  lemma LengthCodeExact(len: nat)
    requires 3 <= len <= 258
    ensures var lc := if len == 258 then 28 else LengthCodeUpTo(len, 27);
      0 <= len - LengthBase(lc) < Pow2(LengthBits(lc))
  {
    var lc := if len == 258 then 28 else LengthCodeUpTo(len, 27);
    LengthsContiguous(if lc < 27 then lc else 0);
  }

  lemma DistCodeExact(dist: nat)
    requires 1 <= dist <= 32768
    ensures var dc := DistCodeUpTo(dist, 29); 0 <= dist - DistBase(dc) < Pow2(DistBits(dc))
  {
    hide DistBase, DistBits, Pow2;
    var dc := DistCodeUpTo(dist, 29);
    DistancesContiguous(if dc < 29 then dc else 0);
    DistancesEnd();
  }

  /** Every length from 3 to 258 and every distance from 1 to 32768 has codes. */
  lemma CopyExact(len: nat, dist: nat)
    requires 3 <= len <= 258 && 1 <= dist <= 32768
    ensures Copy(len, dist).Valid() && Copy(len, dist).Length() == len && Copy(len, dist).Distance() == dist
  {
    hide DistBase, LengthBase, DistBits, LengthBits, LengthCodeUpTo, DistCodeUpTo, Pow2;
    var lc := if len == 258 then 28 else LengthCodeUpTo(len, 27);
    var dc := DistCodeUpTo(dist, 29);
    LengthCodeExact(len);
    DistCodeExact(dist);
    FieldBitsValue(len - LengthBase(lc), LengthBits(lc));
    FieldBitsValue(dist - DistBase(dc), DistBits(dc));
  }

  // ---- round trips

  /** Inflating a packed stream, with anything behind it, gives back what the stream stands for. */
  lemma RoundTrip(bs: seq<Block>, tail: seq<Byte>, cap: nat)
    requires ValidBlocks(bs) && PlacedBlocks(0, bs)
    requires ExpandBlocks([], bs).Some? && |ExpandBlocks([], bs).value| <= cap
    ensures Decoder.Uncompress(Pack(StreamBits(bs)) + tail, cap)
         == Decoder.Done(|StreamBits(bs)|, ExpandBlocks([], bs).value)
  {
    hide StreamBits, ExpandBlocks, PlacedBlocks, ValidBlocks;
    var w := StreamBits(bs);
    PackAt(w, tail);
    assert Begins(Pack(w) + tail, bs);
    InflateInverts(Pack(w) + tail, cap, bs);
  }

  function Literals(data: seq<Byte>): (ts: seq<Token>)
    ensures |ts| == |data| && forall i :: 0 <= i < |ts| ==> ts[i] == Literal(data[i])
  {
    seq(|data|, i requires 0 <= i < |data| => Literal(data[i]))
  }

  lemma {:induction false} ExpandLiterals(out: seq<Byte>, data: seq<Byte>)
    ensures ExpandTokens(out, Literals(data)) == Some(out + data)
    decreases |data|
  {
    if data == [] {
      assert out + data == out;
    } else {
      ExpandLiterals(out + [data[0]], data[1..]);
      assert Literals(data)[1..] == Literals(data[1..]);
      assert out + [data[0]] + data[1..] == out + data;
    }
  }

  /** The fixed codes can write every token, so every sequence of tokens is a fixed block. */
  lemma FixedEncodable(ts: seq<Token>)
    requires ValidTokens(ts)
    ensures Fixed(ts).Valid()
  {
    var l, d := FixedL(), FixedD();
    assert |l.lens| == 288 && |d.lens| == 32;
    forall i | 0 <= i < |ts| ensures Encodable(l, d, ts[i]) {
    }
  }

  /** Any data at all survives being written as literals of a fixed block and inflated. */
  lemma LiteralRoundTrip(data: seq<Byte>, tail: seq<Byte>)
    ensures ValidBlocks([Fixed(Literals(data))])
    ensures Decoder.Uncompress(Pack(StreamBits([Fixed(Literals(data))])) + tail, |data|)
         == Decoder.Done(|StreamBits([Fixed(Literals(data))])|, data)
  {
    hide TokensBits, FixedL, FixedD;
    FixedEncodable(Literals(data));
    ExpandLiterals([], data);
    RoundTrip([Fixed(Literals(data))], tail, |data|);
  }

  // ---- dynamic headers

  /** The length of the code sent for a code length: four bits for each of 0 to 15, no repeats. */
  function PlainLength(s: nat): (l: nat)
    ensures l < 8
  {
    if s <= MAX_BITS then 4 else 0
  }

  function PlainSent(): (r: seq<nat>)
    ensures |r| == 19 && forall i :: 0 <= i < 19 ==> r[i] == PlainLength(CodeLengthOrder(i))
  {
    seq(19, i requires 0 <= i < 19 => PlainLength(CodeLengthOrder(i)))
  }

  function Ones(lens: Lengths): (r: seq<LengthOp>)
    ensures |r| == |lens| && forall i :: 0 <= i < |r| ==> r[i] == One(lens[i])
    ensures ValidOps(r)
  {
    seq(|lens|, i requires 0 <= i < |lens| => One(lens[i]))
  }

  /** A header for two lists of code lengths that sends each length by itself. */
  function PlainHeader(ll: Lengths, dl: Lengths): Header {
    Header(|ll|, |dl|, PlainSent(), Ones(ll + dl))
  }

  lemma {:induction false} ScatterPlain(acc: Lengths, i: nat)
    requires |acc| == 19 && i <= 19
    requires forall k :: 0 <= k < i ==> acc[CodeLengthOrder(k)] == PlainLength(CodeLengthOrder(k))
    ensures forall k :: 0 <= k < 19 ==>
      Scatter(acc, PlainSent(), i)[CodeLengthOrder(k)] == PlainLength(CodeLengthOrder(k))
    decreases 19 - i
  {
    if i < 19 {
      ScatterPlain(acc[CodeLengthOrder(i) := PlainSent()[i]], i + 1);
    }
  }

  /** Where the code length of a symbol is sent. */
  lemma OrderCovers(s: nat) returns (k: nat)
    requires s < 19
    ensures k < 19 && CodeLengthOrder(k) == s
  {
    k := if s >= 16 then s - 16 else if s == 0 then 3 else if s >= 8 then 2 * (s - 6) else 2 * (9 - s) + 1;
  }

  lemma PlainCodeLengths()
    ensures var cl := Scatter(Repeat(0, 19), PlainSent(), 0);
      |cl| == 19 && forall s :: 0 <= s < 19 ==> cl[s] == PlainLength(s)
  {
    hide Scatter, CodeLengthOrder, PlainLength;
    var cl := Scatter(Repeat(0, 19), PlainSent(), 0);
    ScatterPlain(Repeat(0, 19), 0);
    forall s | 0 <= s < 19 ensures cl[s] == PlainLength(s) {
      var k := OrderCovers(s);
    }
  }

  lemma {:induction false} PlainKraft(cl: Lengths, n: nat)
    requires |cl| == 19 && n <= 19 && forall s :: 0 <= s < 19 ==> cl[s] == PlainLength(s)
    ensures KraftTo(cl, n) == 2048 * (if n < 16 then n else 16) && UsedTo(cl, n) == if n < 16 then n else 16
  {
    if n > 0 {
      PlainKraft(cl, n - 1);
      Pow2Values();
    }
  }

  lemma {:induction false} OnesExpand(acc: Lengths, lens: Lengths)
    ensures ExpandOps(acc, Ones(lens)) == Some(acc + lens)
    decreases |lens|
  {
    if lens == [] {
      assert acc + lens == acc;
    } else {
      assert Ones(lens)[1..] == Ones(lens[1..]);
      OnesExpand(acc + [lens[0]], lens[1..]);
      assert acc + [lens[0]] + lens[1..] == acc + lens;
    }
  }

  /**
   * Every two lists of code lengths that may be sent, with an end-of-block code, have a header, so that
   * every sequence of tokens they have codes for is a dynamic block.
   */
  lemma DynamicEncodable(ll: Lengths, dl: Lengths, ts: seq<Token>)
    requires 257 <= |ll| <= 286 && 1 <= |dl| <= 30 && ll[END_OF_BLOCK] > 0 && Acceptable(ll) && Acceptable(dl)
    requires ValidTokens(ts) && EncodableTokens(Sent(ll), Sent(dl), ts)
    ensures var b := Dynamic(PlainHeader(ll, dl), ts);
      b.Valid() && b.h.Literals() == ll && b.h.Distances() == dl
  {
    hide Header.Valid, Header.Literals, Header.Distances, EncodableTokens, ValidTokens, PlainHeader, Acceptable;
    PlainValid(ll, dl);
  }

  lemma PlainValid(ll: Lengths, dl: Lengths)
    requires 257 <= |ll| <= 286 && 1 <= |dl| <= 30 && ll[END_OF_BLOCK] > 0 && Acceptable(ll) && Acceptable(dl)
    ensures var h := PlainHeader(ll, dl); h.Valid() && h.Literals() == ll && h.Distances() == dl
  {
    hide Acceptable, Scatter, ExpandOps, KraftTo, Used, Complete;
    var h := PlainHeader(ll, dl);
    PlainCodes(ll, dl);
    OnesExpand([], ll + dl);
    assert [] + (ll + dl) == ll + dl;
    assert (ll + dl)[..|ll|] == ll && (ll + dl)[|ll|..] == dl;
  }

  /** The code length code of such a header has a code for each length from 0 to 15. */
  lemma PlainCodes(ll: Lengths, dl: Lengths)
    ensures var cl := PlainHeader(ll, dl).CodeLengths();
      Acceptable(cl) && Used(cl) > 0 && |cl| == 19 && forall s :: 0 <= s <= 15 ==> cl[s] == 4
  {
    hide Scatter, KraftTo, UsedTo;
    var cl := PlainHeader(ll, dl).CodeLengths();
    PlainCodeLengths();
    PlainKraft(cl, 19);
    PlainAcceptable(cl);
  }

  lemma PlainAcceptable(cl: Lengths)
    requires Used(cl) >= 2 && Complete(cl)
    ensures Acceptable(cl)
  {
  }

  // ---- overlapping matches

  /** A match of distance `d` repeats the last `d` bytes with period `d` and changes nothing before. */
  lemma {:induction false} ExtendPeriodic(out: seq<Byte>, n: nat, d: nat)
    requires 1 <= d <= |out|
    ensures Extend(out, n, d)[..|out|] == out
    ensures forall k :: |out| <= k < |out| + n ==> Extend(out, n, d)[k] == Extend(out, n, d)[k - d]
    decreases n
  {
    if n > 0 {
      var o, r := out + [out[|out| - d]], Extend(out, n, d);
      ExtendPeriodic(o, n - 1, d);
      assert r[..|out|] == out by {
        assert r[..|o|][..|out|] == o[..|out|] == out;
      }
      assert r[|out|] == r[..|o|][|out|];
      forall k | |out| <= k < |out| + n ensures r[k] == r[k - d] {
        if k == |out| {
          assert r[k - d] == r[..|out|][k - d];
        }
      }
    }
  }
}
