/**
 * The decoder inverts the DEFLATE printer: it accepts exactly the inputs that begin with the bits
 * of a valid stream, and yields that stream's expansion.
 */
module Inflation {
  import opened Bits
  import opened Huffman
  import opened Deflate
  import opened Decoder
  import opened Options

  /** Codes that do not overdraw the code space, with an end-of-block symbol. */
  ghost predicate Usable(l: Alphabet, d: Alphabet) {
    Fits(l.lens) && Fits(d.lens) && l.maxSym >= END_OF_BLOCK && d.maxSym >= -1
  }

  lemma AtFour(src: seq<Byte>, cur: nat, a: seq<bool>, b: seq<bool>, c: seq<bool>, d: seq<bool>)
    ensures At(src, cur, a + b + c + d) <==>
      At(src, cur, a) && At(src, cur + |a|, b) && At(src, cur + |a| + |b|, c)
      && At(src, cur + |a| + |b| + |c|, d)
  {
    AtConcat(src, cur, a, b);
    AtConcat(src, cur, a + b, c);
    AtConcat(src, cur, a + b + c, d);
  }

  // ---- what a destination of `cap` bytes makes of a stream

  /** Writing tokens until one reaches back too far or does not fit. */
  function Write(out: seq<Byte>, cap: nat, ts: seq<Token>): (r: Run)
    requires |out| <= cap && ValidTokens(ts)
    ensures r.Done? ==> |r.out| <= cap
    decreases |ts|
  {
    if ts == [] then Done(0, out)
    else
      var a := Append(out, cap, ts[0]);
      if a.Fail? then a else Write(a.out, cap, ts[1..])
  }

  function WriteBlock(out: seq<Byte>, cap: nat, b: Block): (r: Run)
    requires |out| <= cap && b.Valid()
    ensures r.Done? ==> |r.out| <= cap
  {
    match b
    case Stored(_, data) => if cap - |out| < |data| then Fail(BufError, out) else Done(0, out + data)
    case Fixed(ts) => Write(out, cap, ts)
    case Dynamic(_, ts) => Write(out, cap, ts)
  }

  function WriteBlocks(out: seq<Byte>, cap: nat, bs: seq<Block>): (r: Run)
    requires |out| <= cap && ValidBlocks(bs)
    decreases |bs|
  {
    var r := WriteBlock(out, cap, bs[0]);
    if r.Fail? || |bs| == 1 then r else WriteBlocks(r.out, cap, bs[1..])
  }

  /** A run that ends at bit `cur` if it does not fail. */
  function Ending(r: Run, cur: nat): Run {
    if r.Done? then r.(cur := cur) else r
  }

  /** Writing succeeds exactly with an expansion that fits; one that does not fit is a buffer error. */
  ghost predicate Writes(r: Run, e: Option<seq<Byte>>, cap: nat) {
    && (r.Done? <==> e.Some? && |e.value| <= cap) && (r.Done? ==> r.out == e.value)
    && (e.Some? && |e.value| > cap ==> r.Fail? && r.status == BufError)
  }

  lemma {:induction false} WriteExpands(out: seq<Byte>, cap: nat, ts: seq<Token>)
    requires |out| <= cap && ValidTokens(ts)
    ensures Writes(Write(out, cap, ts), ExpandTokens(out, ts), cap)
    decreases |ts|
  {
    if ts != [] {
      var a := Append(out, cap, ts[0]);
      if a.Done? {
        WriteExpands(a.out, cap, ts[1..]);
      } else if ExpandTokens(out, ts).Some? {
        ExpandTokensGrows(ExpandToken(out, ts[0]).value, ts[1..]);
      }
    }
  }

  lemma WriteBlockExpands(out: seq<Byte>, cap: nat, b: Block)
    requires |out| <= cap && b.Valid()
    ensures Writes(WriteBlock(out, cap, b), b.Expand(out), cap)
  {
    hide Write, ExpandTokens;
    match b
    case Stored(_, _) =>
    case Fixed(ts) => WriteExpands(out, cap, ts);
    case Dynamic(_, ts) => WriteExpands(out, cap, ts);
  }

  lemma {:induction false} WriteBlocksExpand(out: seq<Byte>, cap: nat, bs: seq<Block>)
    requires |out| <= cap && ValidBlocks(bs)
    ensures Writes(WriteBlocks(out, cap, bs), ExpandBlocks(out, bs), cap)
    decreases |bs|
  {
    hide WriteBlock, Block.Expand, Block.Valid;
    WriteBlockExpands(out, cap, bs[0]);
    var r := WriteBlock(out, cap, bs[0]);
    if r.Done? {
      if |bs| > 1 {
        WriteBlocksExpand(r.out, cap, bs[1..]);
      }
    } else if ExpandBlocks(out, bs).Some? {
      ExpandBlocksGrows(out, bs);
    }
  }

  // ---- tokens

  /** A token read stands in the input, bit for bit. */
  lemma TokenSound(src: seq<Byte>, cur: nat, l: Alphabet, d: Alphabet)
    requires l.maxSym >= END_OF_BLOCK && ReadToken(src, cur, l, d).Tok?
    ensures var t := ReadToken(src, cur, l, d).t;
      && Encodable(l, d, t) && At(src, cur, TokenBits(l, d, t))
      && ReadToken(src, cur, l, d).cur == cur + |TokenBits(l, d, t)|
      && cur + l.lens[Head(t)] <= 8 * |src|
  {
    hide At, Window, Codeword;
    var s := Symbol(src, cur, l.lens).value;
    var t := ReadToken(src, cur, l, d).t;
    if t.Match? {
      var c := cur + l.lens[s];
      var e := c + LengthBits(t.lc);
      AtWindow(src, c, t.lx);
      AtWindow(src, e + d.lens[t.dc], t.dx);
      AtFour(src, cur, Codeword(l.lens, s), t.lx, Codeword(d.lens, t.dc), t.dx);
    }
  }

  lemma HeadFirst(l: Alphabet, d: Alphabet, t: Token)
    requires t.Valid() && Encodable(l, d, t)
    ensures l.lens[Head(t)] <= |TokenBits(l, d, t)|
  {
  }

  /** A token that stands in the input is read, even if the bits behind its first code are zeros past the end. */
  lemma TokenComplete(src: seq<Byte>, cur: nat, l: Alphabet, d: Alphabet, t: Token)
    requires Usable(l, d) && t.Valid() && Encodable(l, d, t) && At(src, cur, TokenBits(l, d, t))
    requires cur + l.lens[Head(t)] <= 8 * |src|
    ensures ReadToken(src, cur, l, d) == Tok(t, cur + |TokenBits(l, d, t)|)
  {
    hide At, Window, Codeword, Kraft, Symbol;
    match t
    case Literal(b) =>
      SymbolIs(src, cur, l.lens, b);
    case Match(lc, lx, dc, dx) =>
      var s := 257 + lc;
      var c := cur + l.lens[s];
      var e := c + |lx|;
      AtFour(src, cur, Codeword(l.lens, s), lx, Codeword(d.lens, dc), dx);
      SymbolIs(src, cur, l.lens, s);
      SymbolIs(src, e, d.lens, dc);
      AtWindow(src, c, lx);
      AtWindow(src, e + d.lens[dc], dx);
  }

  lemma EndSound(src: seq<Byte>, cur: nat, l: Alphabet, d: Alphabet)
    requires l.maxSym >= END_OF_BLOCK && ReadToken(src, cur, l, d).End?
    ensures l.Has(END_OF_BLOCK) && At(src, cur, Codeword(l.lens, END_OF_BLOCK))
    ensures ReadToken(src, cur, l, d).cur == cur + |Codeword(l.lens, END_OF_BLOCK)|
  {
  }

  lemma EndComplete(src: seq<Byte>, cur: nat, l: Alphabet, d: Alphabet)
    requires Usable(l, d) && l.Has(END_OF_BLOCK) && At(src, cur, Codeword(l.lens, END_OF_BLOCK))
    requires cur + l.lens[END_OF_BLOCK] <= 8 * |src|
    ensures ReadToken(src, cur, l, d) == End(cur + l.lens[END_OF_BLOCK])
  {
    SymbolIs(src, cur, l.lens, END_OF_BLOCK);
  }

  lemma {:induction false} TokensSound(
    src: seq<Byte>, cur: nat, out: seq<Byte>, cap: nat, l: Alphabet, d: Alphabet)
    returns (ts: seq<Token>)
    requires Usable(l, d) && |out| <= cap && Tokens(src, cur, out, cap, l, d).Done?
    ensures ValidTokens(ts) && EncodableTokens(l, d, ts)
    ensures At(src, cur, TokensBits(l, d, ts))
    ensures ExpandTokens(out, ts).Some?
    ensures Tokens(src, cur, out, cap, l, d)
         == Done(cur + |TokensBits(l, d, ts)|, ExpandTokens(out, ts).value)
    decreases Unread(src, cur)
  {
    hide At, TokenBits, ReadToken, Codeword, Kraft;
    match ReadToken(src, cur, l, d)
    case Bad =>
    case End(c) =>
      EndSound(src, cur, l, d);
      ts := [];
    case Tok(t, c) =>
      TokenSound(src, cur, l, d);
      var a := Append(out, cap, t);
      var rest := TokensSound(src, c, a.out, cap, l, d);
      ts := [t] + rest;
      assert ts[1..] == rest;
      AtConcat(src, cur, TokenBits(l, d, t), TokensBits(l, d, rest));
  }

  /** The output never shrinks. */
  lemma {:induction false} ExpandTokensGrows(out: seq<Byte>, ts: seq<Token>)
    requires ValidTokens(ts) && ExpandTokens(out, ts).Some?
    ensures |out| <= |ExpandTokens(out, ts).value|
    decreases |ts|
  {
    if ts != [] {
      ExpandTokensGrows(ExpandToken(out, ts[0]).value, ts[1..]);
    }
  }

  lemma {:induction false} TokensComplete(
    src: seq<Byte>, cur: nat, out: seq<Byte>, cap: nat, l: Alphabet, d: Alphabet, ts: seq<Token>)
    requires Usable(l, d) && |out| <= cap && ValidTokens(ts) && EncodableTokens(l, d, ts)
    requires At(src, cur, TokensBits(l, d, ts)) && cur + |TokensBits(l, d, ts)| <= 8 * |src|
    ensures Tokens(src, cur, out, cap, l, d) == Ending(Write(out, cap, ts), cur + |TokensBits(l, d, ts)|)
    decreases |ts|
  {
    hide At, TokenBits, ReadToken, Codeword, Kraft, Append, ExpandToken, Encodable, Usable;
    if ts == [] {
      EndComplete(src, cur, l, d);
    } else {
      var t := ts[0];
      assert Encodable(l, d, t);
      AtConcat(src, cur, TokenBits(l, d, t), TokensBits(l, d, ts[1..]));
      HeadFirst(l, d, t);
      TokenComplete(src, cur, l, d, t);
      var a := Append(out, cap, t);
      if a.Done? {
        TokensComplete(src, cur + |TokenBits(l, d, t)|, a.out, cap, l, d, ts[1..]);
      }
    }
  }

  // ---- sent code lengths and the codes decoded with

  lemma DecodingUsable(literals: Lengths, distances: Lengths)
    requires |literals| > 256 && literals[256] > 0 && Acceptable(literals) && Acceptable(distances)
    ensures Usable(Decoding(literals), Decoding(distances))
  {
    UsedBelow(literals, |literals|);
    EffectiveComplete(literals);
    if Used(distances) > 0 {
      EffectiveComplete(distances);
    } else {
      AcceptableFits(distances);
    }
  }

  lemma SentHas(lens: Lengths, s: nat)
    requires Acceptable(lens)
    ensures Sent(lens).Has(s) <==> Decoding(lens).Has(s)
    ensures Sent(lens).Has(s) ==> Codeword(lens, s) == Codeword(Effective(lens), s)
  {
    EffectiveKeeps(lens, s);
  }

  lemma SentEncodable(ll: Lengths, dl: Lengths, t: Token)
    requires Acceptable(ll) && Acceptable(dl) && t.Valid()
    ensures Encodable(Sent(ll), Sent(dl), t) <==> Encodable(Decoding(ll), Decoding(dl), t)
    ensures Encodable(Sent(ll), Sent(dl), t) ==>
      TokenBits(Sent(ll), Sent(dl), t) == TokenBits(Decoding(ll), Decoding(dl), t)
  {
    match t
    case Literal(b) => SentHas(ll, b);
    case Match(lc, _, dc, _) => SentHas(ll, 257 + lc); SentHas(dl, dc);
  }

  /** Encoding with the sent lengths and with the lengths decoded with is the same. */
  lemma {:induction false} SentTokens(ll: Lengths, dl: Lengths, ts: seq<Token>)
    requires Acceptable(ll) && Acceptable(dl) && ValidTokens(ts)
    ensures EncodableTokens(Sent(ll), Sent(dl), ts) <==> EncodableTokens(Decoding(ll), Decoding(dl), ts)
    ensures EncodableTokens(Sent(ll), Sent(dl), ts) ==>
      TokensBits(Sent(ll), Sent(dl), ts) == TokensBits(Decoding(ll), Decoding(dl), ts)
    decreases |ts|
  {
    SentHas(ll, END_OF_BLOCK);
    forall i | 0 <= i < |ts|
      ensures Encodable(Sent(ll), Sent(dl), ts[i]) <==> Encodable(Decoding(ll), Decoding(dl), ts[i])
    {
      SentEncodable(ll, dl, ts[i]);
    }
    if ts != [] && EncodableTokens(Sent(ll), Sent(dl), ts) {
      assert Encodable(Sent(ll), Sent(dl), ts[0]);
      SentEncodable(ll, dl, ts[0]);
      SentTokens(ll, dl, ts[1..]);
    }
  }

  // ---- dynamic headers

  lemma OpSound(src: seq<Byte>, cur: nat, lens: Lengths)
    requires Acceptable(lens) && Used(lens) > 0 && |lens| == 19
    requires ReadOp(src, cur, Decoding(lens)).OpRead?
    ensures var op := ReadOp(src, cur, Decoding(lens)).op;
      && HasCode(lens, op.Symbol())
      && At(src, cur, Codeword(lens, op.Symbol()) + op.ExtraBits())
      && ReadOp(src, cur, Decoding(lens)).cur == cur + |Codeword(lens, op.Symbol()) + op.ExtraBits()|
  {
    hide At;
    var e := Effective(lens);
    var op := ReadOp(src, cur, Decoding(lens)).op;
    var s := Symbol(src, cur, e).value;
    EffectiveComplete(lens);
    EffectiveKeeps(lens, s);
    AtConcat(src, cur, Codeword(lens, s), op.ExtraBits());
    AtWindow(src, cur + lens[s], op.ExtraBits());
  }

  lemma OpComplete(src: seq<Byte>, cur: nat, lens: Lengths, op: LengthOp)
    requires Acceptable(lens) && Used(lens) > 0 && |lens| == 19
    requires op.Valid() && HasCode(lens, op.Symbol())
    requires At(src, cur, Codeword(lens, op.Symbol()) + op.ExtraBits())
    ensures ReadOp(src, cur, Decoding(lens))
         == OpRead(op, cur + |Codeword(lens, op.Symbol()) + op.ExtraBits()|)
  {
    hide At;
    var s := op.Symbol();
    EffectiveComplete(lens);
    EffectiveKeeps(lens, s);
    AtConcat(src, cur, Codeword(lens, s), op.ExtraBits());
    SymbolIs(src, cur, Effective(lens), s);
    AtWindow(src, cur + lens[s], op.ExtraBits());
  }

  lemma {:induction false} LengthsSound(src: seq<Byte>, cur: nat, cl: Lengths, total: nat, lens: Lengths)
    returns (ops: seq<LengthOp>)
    requires Acceptable(cl) && Used(cl) > 0 && |cl| == 19 && |lens| <= total
    requires ReadLengths(src, cur, Decoding(cl), total, lens).LengthsRead?
    ensures ValidOps(ops) && forall i :: 0 <= i < |ops| ==> HasCode(cl, ops[i].Symbol())
    ensures At(src, cur, OpsBits(cl, ops))
    ensures ExpandOps(lens, ops).Some?
    ensures ReadLengths(src, cur, Decoding(cl), total, lens)
         == LengthsRead(ExpandOps(lens, ops).value, cur + |OpsBits(cl, ops)|)
    decreases total - |lens|
  {
    hide At, ReadOp, Codeword, MaxSym, Used, Kraft;
    if |lens| == total {
      ops := [];
      AtEmpty(src, cur);
    } else {
      OpSound(src, cur, cl);
      var r := ReadOp(src, cur, Decoding(cl));
      var rest := LengthsSound(src, r.cur, cl, total, r.op.Apply(lens).value);
      ops := [r.op] + rest;
      assert ops[1..] == rest;
      AtConcat(src, cur, Codeword(cl, r.op.Symbol()) + r.op.ExtraBits(), OpsBits(cl, rest));
    }
  }

  lemma {:induction false} ExpandOpsGrows(lens: Lengths, ops: seq<LengthOp>)
    requires ValidOps(ops) && ExpandOps(lens, ops).Some?
    ensures |lens| + |ops| <= |ExpandOps(lens, ops).value|
    decreases |ops|
  {
    if ops != [] {
      ExpandOpsGrows(ops[0].Apply(lens).value, ops[1..]);
    }
  }

  lemma {:induction false} LengthsComplete(
    src: seq<Byte>, cur: nat, cl: Lengths, total: nat, lens: Lengths, ops: seq<LengthOp>)
    requires Acceptable(cl) && Used(cl) > 0 && |cl| == 19 && |lens| <= total
    requires ValidOps(ops) && forall i :: 0 <= i < |ops| ==> HasCode(cl, ops[i].Symbol())
    requires At(src, cur, OpsBits(cl, ops))
    requires ExpandOps(lens, ops).Some? && |ExpandOps(lens, ops).value| == total
    ensures ReadLengths(src, cur, Decoding(cl), total, lens)
         == LengthsRead(ExpandOps(lens, ops).value, cur + |OpsBits(cl, ops)|)
    decreases |ops|
  {
    hide At, ReadOp, Codeword, MaxSym, Used, Kraft, Decoding;
    if ops != [] {
      var op := ops[0];
      assert HasCode(cl, op.Symbol());
      AtConcat(src, cur, Codeword(cl, op.Symbol()) + op.ExtraBits(), OpsBits(cl, ops[1..]));
      OpComplete(src, cur, cl, op);
      ExpandOpsGrows(lens, ops);
      var a := op.Apply(lens).value;
      ExpandOpsGrows(a, ops[1..]);
      LengthsComplete(src, cur + |Codeword(cl, op.Symbol()) + op.ExtraBits()|, cl, total, a, ops[1..]);
    }
  }

  lemma {:induction false} SentIff(src: seq<Byte>, cur: nat, sent: seq<nat>)
    requires forall k :: 0 <= k < |sent| ==> sent[k] < 8
    ensures At(src, cur, ThreeBitFields(sent)) <==> ReadSent(src, cur, |sent|) == sent
    decreases |sent|
  {
    hide At;
    AtEmpty(src, cur);
    if sent != [] {
      AtConcat(src, cur, FieldBits(sent[0], 3), ThreeBitFields(sent[1..]));
      Pow2Values();
      FieldIff(src, cur, sent[0], 3);
      SentIff(src, cur + 3, sent[1..]);
      var r := ReadSent(src, cur, |sent|);
      assert r[1..] == ReadSent(src, cur + 3, |sent| - 1);
      assert sent == [sent[0]] + sent[1..];
    }
  }

  /** The fixed part and the code lengths of a header stand at `cur`, the repeat codes after them. */
  lemma HeaderIff(src: seq<Byte>, cur: nat, h: Header)
    requires h.Valid()
    ensures At(src, cur, h.Bits()) <==>
      && h.hlit == 257 + Field(src, cur, 5) && h.hdist == 1 + Field(src, cur + 5, 5)
      && |h.sent| == 4 + Field(src, cur + 10, 4)
      && ReadSent(src, cur + 14, |h.sent|) == h.sent
      && At(src, cur + 14 + 3 * |h.sent|, OpsBits(h.CodeLengths(), h.ops))
    ensures |h.Bits()| == 14 + 3 * |h.sent| + |OpsBits(h.CodeLengths(), h.ops)|
  {
    hide At, FieldBits, FieldBetween, ReadSent, OpsBits, ThreeBitFields, Scatter, ExpandOps, Acceptable, Used;
    var a, b, c := FieldBits(h.hlit - 257, 5), FieldBits(h.hdist - 1, 5), FieldBits(|h.sent| - 4, 4);
    var d, e := ThreeBitFields(h.sent), OpsBits(h.CodeLengths(), h.ops);
    AtFour(src, cur, a, b, c, d);
    AtConcat(src, cur, a + b + c + d, e);
    Pow2Values();
    FieldIff(src, cur, h.hlit - 257, 5);
    FieldIff(src, cur + 5, h.hdist - 1, 5);
    FieldIff(src, cur + 10, |h.sent| - 4, 4);
    SentIff(src, cur + 14, h.sent);
  }

  lemma HeaderSound(src: seq<Byte>, cur: nat) returns (h: Header)
    requires ReadHeader(src, cur).HeaderRead?
    ensures h.Valid() && At(src, cur, h.Bits())
    ensures ReadHeader(src, cur) == HeaderRead(h.Literals(), h.Distances(), cur + |h.Bits()|)
  {
    hide At, MaxSym, Used, Kraft, Scatter, ReadSent, ReadLengths, OpsBits, Decoding, Field, FieldBits;
    hide Header.Bits, ExpandOps, Pow2;
    FieldBound(src, cur + 10, 4);
    Pow2Values();
    var hlit, hdist := 257 + Field(src, cur, 5), 1 + Field(src, cur + 5, 5);
    var sent := ReadSent(src, cur + 14, 4 + Field(src, cur + 10, 4));
    var cl := Scatter(Repeat(0, 19), sent, 0);
    var ops := LengthsSound(src, cur + 14 + 3 * |sent|, cl, hlit + hdist, []);
    h := Header(hlit, hdist, sent, ops);
    assert h.CodeLengths() == cl;
    HeaderIff(src, cur, h);
  }

  lemma HeaderComplete(src: seq<Byte>, cur: nat, h: Header)
    requires h.Valid() && At(src, cur, h.Bits())
    ensures ReadHeader(src, cur) == HeaderRead(h.Literals(), h.Distances(), cur + |h.Bits()|)
  {
    hide At, MaxSym, Used, Kraft, Scatter, ReadSent, ReadLengths, OpsBits, Decoding, FieldBetween, FieldBits;
    HeaderIff(src, cur, h);
    LengthsComplete(src, cur + 14 + 3 * |h.sent|, h.CodeLengths(), h.hlit + h.hdist, [], h.ops);
  }

  // ---- blocks

  /** A stored block ends up exactly at the next byte boundary and loses no byte. */
  lemma StoredSound(src: seq<Byte>, cur: nat, out: seq<Byte>, cap: nat) returns (b: Block)
    requires |out| <= cap && StoredBlock(src, cur, out, cap).Done?
    ensures b.Stored? && b.Valid() && At(src, cur, b.Body()) && |b.pad| < 8 && (cur + |b.pad|) % 8 == 0
    ensures StoredBlock(src, cur, out, cap) == Done(cur + |b.Body()|, out + b.data)
  {
    hide At, FieldBits, BytesBits, Window;
    var p := ByteAfter(cur);
    var n := ReadLe16(src, p);
    var pad := Window(src, cur, 8 * p - cur);
    b := Stored(pad, src[p + 4..p + 4 + n]);
    AtWindow(src, cur, pad);
    StoredIff(src, p, b.data);
    AtStored(src, cur, p, b);
  }

  lemma StoredComplete(src: seq<Byte>, cur: nat, out: seq<Byte>, cap: nat, b: Block)
    requires b.Stored? && b.Valid() && At(src, cur, b.Body()) && |b.pad| < 8 && (cur + |b.pad|) % 8 == 0
    requires cur + |b.Body()| <= 8 * |src| && |out| <= cap
    ensures StoredBlock(src, cur, out, cap) == Ending(WriteBlock(out, cap, b), cur + |b.Body()|)
  {
    var p := ByteAfter(cur);
    assert cur + |b.pad| == 8 * p;
    AtStored(src, cur, p, b);
    StoredIff(src, p, b.data);
  }

  lemma AtStored(src: seq<Byte>, cur: nat, p: nat, b: Block)
    requires b.Stored? && b.Valid() && cur + |b.pad| == 8 * p
    ensures At(src, cur, b.Body()) <==>
      && At(src, cur, b.pad) && At(src, 8 * p, FieldBits(|b.data|, 16))
      && At(src, 8 * p + 16, FieldBits(65535 - |b.data|, 16)) && At(src, 8 * p + 32, BytesBits(b.data))
  {
    hide At, FieldBits, BytesBits;
    AtFour(src, cur, b.pad, FieldBits(|b.data|, 16), FieldBits(65535 - |b.data|, 16), BytesBits(b.data));
  }

  /** LEN, NLEN and the data of a stored block, read as bits or as bytes. */
  lemma StoredIff(src: seq<Byte>, p: nat, data: seq<Byte>)
    requires |data| < 65536 && p + 4 + |data| <= |src|
    ensures At(src, 8 * p, FieldBits(|data|, 16)) <==> ReadLe16(src, p) == |data|
    ensures At(src, 8 * p + 16, FieldBits(65535 - |data|, 16)) <==> ReadLe16(src, p + 2) == 65535 - |data|
    ensures At(src, 8 * p + 32, BytesBits(data)) <==> src[p + 4..p + 4 + |data|] == data
  {
    hide At, FieldBits, BytesBits, FieldBetween;
    Le16Field(src, p);
    Le16Field(src, p + 2);
    Pow2Values();
    FieldIff(src, 8 * p, |data|, 16);
    FieldIff(src, 8 * (p + 2), 65535 - |data|, 16);
    assert 8 * (p + 2) == 8 * p + 16 && 8 * (p + 4) == 8 * p + 32;
    AtBytes(src, p + 4, data);
  }

  lemma Le16Field(src: seq<Byte>, p: nat)
    requires p + 1 < |src|
    ensures ReadLe16(src, p) == Field(src, 8 * p, 16)
  {
    hide FieldBetween;
    FieldSplit(src, 8 * p, 8, 8);
    FieldByte(src, p);
    FieldByte(src, p + 1);
    assert 8 * (p + 1) == 8 * p + 8;
    Pow2Values();
  }

  /** Every symbol of the fixed codes is decodable and their code space is full. */
  lemma FixedUsable()
    ensures Usable(FixedL(), FixedD())
    ensures Complete(FixedL().lens) && Complete(FixedD().lens)
  {
    FixedLiteralKraft(288);
    FixedDistanceKraft(32);
  }

  lemma {:induction false} FixedLiteralKraft(n: nat)
    requires n <= 288
    ensures KraftTo(FixedL().lens, n) ==
      if n <= 144 then 128 * n
      else if n <= 256 then 18432 + 64 * (n - 144)
      else if n <= 280 then 25600 + 256 * (n - 256)
      else 31744 + 128 * (n - 280)
  {
    if n > 0 {
      FixedLiteralKraft(n - 1);
      Pow2Values();
    }
  }

  lemma {:induction false} FixedDistanceKraft(n: nat)
    requires n <= 32
    ensures KraftTo(FixedD().lens, n) == 1024 * n
  {
    if n > 0 {
      FixedDistanceKraft(n - 1);
      Pow2Values();
    }
  }

  lemma BodySound(src: seq<Byte>, cur: nat, btype: nat, out: seq<Byte>, cap: nat) returns (b: Block)
    requires |out| <= cap && BlockBody(src, cur, btype, out, cap).Done?
    ensures b.Valid() && b.Type() == btype && At(src, cur, b.Body())
    ensures b.Stored? ==> |b.pad| < 8 && (cur + |b.pad|) % 8 == 0
    ensures b.Expand(out).Some?
    ensures BlockBody(src, cur, btype, out, cap) == Done(cur + |b.Body()|, b.Expand(out).value)
  {
    if btype == 0 {
      hide At, StoredBlock, Block.Body;
      b := StoredSound(src, cur, out, cap);
    } else if btype == 1 {
      hide At, BlockBody, Block.Body, Block.Valid, Block.Expand;
      b := FixedSound(src, cur, out, cap);
    } else {
      hide At, Tokens, ReadHeader, Block.Body, Block.Valid, Block.Expand;
      b := DynamicSound(src, cur, out, cap);
    }
  }

  lemma FixedSound(src: seq<Byte>, cur: nat, out: seq<Byte>, cap: nat) returns (b: Block)
    requires |out| <= cap && BlockBody(src, cur, 1, out, cap).Done?
    ensures b.Fixed? && b.Valid() && At(src, cur, b.Body()) && b.Expand(out).Some?
    ensures BlockBody(src, cur, 1, out, cap) == Done(cur + |b.Body()|, b.Expand(out).value)
  {
    hide At, Tokens, TokensBits, ExpandTokens, FixedL, FixedD, EncodableTokens, Usable, Complete, StoredBlock, ReadHeader;
    FixedUsable();
    var ts := TokensSound(src, cur, out, cap, FixedL(), FixedD());
    b := Fixed(ts);
  }

  lemma DynamicSound(src: seq<Byte>, cur: nat, out: seq<Byte>, cap: nat) returns (b: Block)
    requires |out| <= cap && BlockBody(src, cur, 2, out, cap).Done?
    ensures b.Dynamic? && b.Valid() && At(src, cur, b.Body()) && b.Expand(out).Some?
    ensures BlockBody(src, cur, 2, out, cap) == Done(cur + |b.Body()|, b.Expand(out).value)
  {
    hide At, Tokens, TokensBits, ExpandTokens, Decoding, Acceptable, ReadHeader, StoredBlock, Header.Bits;
    hide EncodableTokens, Usable, Complete, ExpandOps;
    var h := HeaderSound(src, cur);
    var ll, dl := h.Literals(), h.Distances();
    DecodingUsable(ll, dl);
    var ts := TokensSound(src, cur + |h.Bits()|, out, cap, Decoding(ll), Decoding(dl));
    SentTokens(ll, dl, ts);
    b := Dynamic(h, ts);
    AtConcat(src, cur, h.Bits(), TokensBits(Sent(ll), Sent(dl), ts));
  }

  lemma BodyComplete(src: seq<Byte>, cur: nat, out: seq<Byte>, cap: nat, b: Block)
    requires b.Valid() && At(src, cur, b.Body()) && cur + |b.Body()| <= 8 * |src|
    requires b.Stored? ==> |b.pad| < 8 && (cur + |b.pad|) % 8 == 0
    requires |out| <= cap
    ensures BlockBody(src, cur, b.Type(), out, cap) == Ending(WriteBlock(out, cap, b), cur + |b.Body()|)
  {
    hide At, StoredBlock, Tokens, ReadHeader, Block.Body, Block.Valid, WriteBlock;
    match b
    case Stored(_, _) => StoredComplete(src, cur, out, cap, b);
    case Fixed(_) => FixedComplete(src, cur, out, cap, b);
    case Dynamic(_, _) => DynamicComplete(src, cur, out, cap, b);
  }

  lemma FixedComplete(src: seq<Byte>, cur: nat, out: seq<Byte>, cap: nat, b: Block)
    requires b.Fixed? && b.Valid() && At(src, cur, b.Body()) && cur + |b.Body()| <= 8 * |src| && |out| <= cap
    ensures BlockBody(src, cur, 1, out, cap) == Ending(WriteBlock(out, cap, b), cur + |b.Body()|)
  {
    hide At, Tokens, Write, TokensBits, FixedL, FixedD, EncodableTokens, Usable, StoredBlock, ReadHeader;
    hide Decoding, Kraft;
    FixedUsable();
    TokensComplete(src, cur, out, cap, FixedL(), FixedD(), b.ts);
  }

  lemma DynamicComplete(src: seq<Byte>, cur: nat, out: seq<Byte>, cap: nat, b: Block)
    requires b.Dynamic? && b.Valid() && At(src, cur, b.Body()) && cur + |b.Body()| <= 8 * |src| && |out| <= cap
    ensures BlockBody(src, cur, 2, out, cap) == Ending(WriteBlock(out, cap, b), cur + |b.Body()|)
  {
    hide At, Tokens, Write, TokensBits, Decoding, Acceptable, ReadHeader, Header.Bits, EncodableTokens, Usable, ExpandOps;
    var ll, dl := b.h.Literals(), b.h.Distances();
    AtConcat(src, cur, b.h.Bits(), TokensBits(Sent(ll), Sent(dl), b.ts));
    HeaderComplete(src, cur, b.h);
    DecodingUsable(ll, dl);
    SentTokens(ll, dl, b.ts);
    TokensComplete(src, cur + |b.h.Bits()|, out, cap, Decoding(ll), Decoding(dl), b.ts);
  }

  // ---- streams

  lemma AtBlock(src: seq<Byte>, cur: nat, b: Block, last: bool)
    requires b.Valid()
    ensures At(src, cur, b.Bits(last)) <==>
      && BitAt(src, cur) == last && Field(src, cur + 1, 2) == b.Type() && At(src, cur + 3, b.Body())
    ensures |b.Bits(last)| == 3 + |b.Body()|
  {
    hide At, FieldBits, FieldBetween;
    AtConcat(src, cur, [last], FieldBits(b.Type(), 2));
    AtConcat(src, cur, [last] + FieldBits(b.Type(), 2), b.Body());
    AtOne(src, cur, last);
    Pow2Values();
    FieldIff(src, cur + 1, b.Type(), 2);
  }

  lemma FlagField(src: seq<Byte>, cur: nat)
    ensures Field(src, cur, 1) == 1 <==> BitAt(src, cur)
  {
    assert FieldBetween(src, cur + 1, cur + 1) == 0;
  }

  lemma {:induction false} StreamSound(src: seq<Byte>, cur: nat, out: seq<Byte>, cap: nat)
    returns (bs: seq<Block>)
    requires |out| <= cap && Stream(src, cur, out, cap).Done?
    ensures ValidBlocks(bs) && PlacedBlocks(cur, bs) && At(src, cur, StreamBits(bs))
    ensures ExpandBlocks(out, bs).Some?
    ensures Stream(src, cur, out, cap) == Done(cur + |StreamBits(bs)|, ExpandBlocks(out, bs).value)
    decreases Unread(src, cur)
  {
    hide At, FieldBits, FieldBetween, Block.Bits, Block.Body, Block.Expand, Block.Valid, BlockBody;
    var b := BodySound(src, cur + 3, Field(src, cur + 1, 2), out, cap);
    var r := BlockBody(src, cur + 3, Field(src, cur + 1, 2), out, cap);
    FlagField(src, cur);
    AtBlock(src, cur, b, BitAt(src, cur));
    if BitAt(src, cur) {
      bs := [b];
    } else {
      var rest := StreamSound(src, r.cur, r.out, cap);
      bs := [b] + rest;
      assert bs[1..] == rest;
      AtConcat(src, cur, b.Bits(false), StreamBits(rest));
    }
  }

  lemma {:induction false} ExpandBlocksGrows(out: seq<Byte>, bs: seq<Block>)
    requires ValidBlocks(bs) && ExpandBlocks(out, bs).Some?
    ensures |out| <= |bs[0].Expand(out).value| <= |ExpandBlocks(out, bs).value|
    decreases |bs|
  {
    match bs[0] {
      case Stored(_, _) =>
      case Fixed(ts) => ExpandTokensGrows(out, ts);
      case Dynamic(_, ts) => ExpandTokensGrows(out, ts);
    }
    if |bs| > 1 {
      ExpandBlocksGrows(bs[0].Expand(out).value, bs[1..]);
    }
  }

  lemma {:induction false} StreamComplete(src: seq<Byte>, cur: nat, out: seq<Byte>, cap: nat, bs: seq<Block>)
    requires ValidBlocks(bs) && PlacedBlocks(cur, bs) && At(src, cur, StreamBits(bs))
    requires cur + |StreamBits(bs)| <= 8 * |src|
    requires |out| <= cap
    ensures Stream(src, cur, out, cap) == Ending(WriteBlocks(out, cap, bs), cur + |StreamBits(bs)|)
    decreases |bs|
  {
    hide At, FieldBits, FieldBetween, Block.Bits, Block.Body, WriteBlock, Block.Valid, BlockBody;
    var b, last := bs[0], |bs| == 1;
    if !last {
      AtConcat(src, cur, b.Bits(false), StreamBits(bs[1..]));
    }
    AtBlock(src, cur, b, last);
    FlagField(src, cur);
    BodyComplete(src, cur + 3, out, cap, b);
    var r := WriteBlock(out, cap, b);
    if !last && r.Done? {
      StreamComplete(src, cur + |b.Bits(false)|, r.out, cap, bs[1..]);
    }
  }

  // ---- main results

  /** `bs` is a valid stream that `src` begins with. */
  ghost predicate Begins(src: seq<Byte>, bs: seq<Block>) {
    && ValidBlocks(bs) && PlacedBlocks(0, bs)
    && |StreamBits(bs)| <= 8 * |src| && At(src, 0, StreamBits(bs))
  }

  /**
   * On every valid stream of stored, fixed and dynamic blocks, followed by anything, decoding does
   * what writing the stream into the destination does, and fails with the same error.
   */
  lemma InflateWrites(src: seq<Byte>, cap: nat, bs: seq<Block>)
    requires Begins(src, bs)
    ensures Uncompress(src, cap) == Ending(WriteBlocks([], cap, bs), |StreamBits(bs)|)
  {
    hide At, Stream, WriteBlocks, StreamBits, PlacedBlocks, ValidBlocks;
    StreamComplete(src, 0, [], cap, bs);
  }

  /**
   * Inflate inverts encoding: decoding such a stream yields the expansion whenever that fits the
   * destination, and is a buffer error when it does not.
   */
  lemma InflateInverts(src: seq<Byte>, cap: nat, bs: seq<Block>)
    requires Begins(src, bs) && ExpandBlocks([], bs).Some?
    ensures var r, e := Uncompress(src, cap), ExpandBlocks([], bs).value;
      if |e| <= cap then r == Done(|StreamBits(bs)|, e) else r.Fail? && r.status == BufError
  {
    hide Uncompress, StreamBits, ExpandBlocks, WriteBlocks, At, PlacedBlocks;
    InflateWrites(src, cap, bs);
    WriteBlocksExpand([], cap, bs);
  }

  /** Decoding succeeds with output `out` exactly on inputs that begin with a stream for `out`. */
  lemma InflateExact(src: seq<Byte>, cap: nat, out: seq<Byte>)
    ensures (Uncompress(src, cap).Done? && Uncompress(src, cap).out == out) <==>
      |out| <= cap && exists bs :: Begins(src, bs) && ExpandBlocks([], bs) == Some(out)
  {
    if Uncompress(src, cap).Done? {
      var bs := StreamSound(src, 0, [], cap);
      assert Begins(src, bs);
    }
    if |out| <= cap && exists bs :: Begins(src, bs) && ExpandBlocks([], bs) == Some(out) {
      var bs: seq<Block> :| Begins(src, bs) && ExpandBlocks([], bs) == Some(out);
      InflateInverts(src, cap, bs);
    }
  }

  /** `src` begins with the valid stream `bs`, whose expansion fits into `cap` bytes. */
  ghost predicate Fitting(src: seq<Byte>, bs: seq<Block>, cap: nat) {
    Begins(src, bs) && ExpandBlocks([], bs).Some? && |ExpandBlocks([], bs).value| <= cap
  }

  /** `src` begins with the valid stream `bs`, whose expansion does not fit into `cap` bytes. */
  ghost predicate Exceeding(src: seq<Byte>, bs: seq<Block>, cap: nat) {
    Begins(src, bs) && ExpandBlocks([], bs).Some? && |ExpandBlocks([], bs).value| > cap
  }

  /**
   * Decoding succeeds exactly on inputs that begin with a stream that fits the destination, and is a
   * buffer error on those that begin with one that does not.
   */
  lemma InflateSuccess(src: seq<Byte>, cap: nat)
    ensures Uncompress(src, cap).Done? <==> exists bs :: Fitting(src, bs, cap)
    ensures forall bs :: Fitting(src, bs, cap) ==>
      Uncompress(src, cap) == Done(|StreamBits(bs)|, ExpandBlocks([], bs).value)
    ensures forall bs :: Exceeding(src, bs, cap) ==>
      Uncompress(src, cap).Fail? && Uncompress(src, cap).status == BufError
  {
    hide Uncompress;
    forall bs: seq<Block> | Fitting(src, bs, cap) || Exceeding(src, bs, cap)
      ensures if Fitting(src, bs, cap) then Uncompress(src, cap) == Done(|StreamBits(bs)|, ExpandBlocks([], bs).value)
              else Uncompress(src, cap).Fail? && Uncompress(src, cap).status == BufError
    {
      InflateInverts(src, cap, bs);
    }
    if Uncompress(src, cap).Done? {
      InflateExact(src, cap, Uncompress(src, cap).out);
      var bs :| Begins(src, bs) && ExpandBlocks([], bs) == Some(Uncompress(src, cap).out);
      assert Fitting(src, bs, cap);
    }
  }
}
