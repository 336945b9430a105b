/**
 * When inflating ends in which error: a buffer error if and only if what stands in front of the input
 * as whole blocks, and then whole tokens, expands to more than the destination holds.
 */
module Overrun {
  import opened Bits
  import opened Huffman
  import opened Deflate
  import opened Decoder
  import opened Inflation
  import opened Options

  /** The start of a block: a stored one, or tokens in the fixed codes or in those of a header. */
  datatype Start =
    | Whole(last: bool, b: Block)
    | Coded(last: bool, h: Option<Header>, ts: seq<Token>)
  {
    ghost predicate Valid() {
      match this
      case Whole(_, b) => b.Stored? && b.Valid()
      case Coded(_, h, ts) => (h.Some? ==> h.value.Valid()) && ValidTokens(ts)
    }

    function Expand(out: seq<Byte>): Option<seq<Byte>>
      requires Valid()
    {
      match this
      case Whole(_, b) => b.Expand(out)
      case Coded(_, _, ts) => ExpandTokens(out, ts)
    }
  }

  function LiteralCode(h: Option<Header>): Alphabet
    requires h.Some? ==> h.value.Valid()
  {
    if h.None? then FixedL() else Sent(h.value.Literals())
  }

  function DistanceCode(h: Option<Header>): Alphabet
    requires h.Some? ==> h.value.Valid()
  {
    if h.None? then FixedD() else Sent(h.value.Distances())
  }

  /** What a coded block has before its tokens. */
  function Opening(last: bool, h: Option<Header>): seq<bool>
    requires h.Some? ==> h.value.Valid()
  {
    [last] + FieldBits(if h.None? then 1 else 2, 2) + if h.None? then [] else h.value.Bits()
  }

  /** The tokens stand at `cur`; only what follows the first code of the last may lie past the end, as zeros. */
  ghost predicate TokensStand(src: seq<Byte>, cur: nat, l: Alphabet, d: Alphabet, ts: seq<Token>)
    requires ValidTokens(ts)
    decreases |ts|
  {
    ts == [] || (
      && Encodable(l, d, ts[0]) && At(src, cur, TokenBits(l, d, ts[0]))
      && cur + l.lens[Head(ts[0])] <= 8 * |src|
      && TokensStand(src, cur + |TokenBits(l, d, ts[0])|, l, d, ts[1..]))
  }

  ghost predicate StartStands(src: seq<Byte>, cur: nat, st: Start)
    requires st.Valid()
  {
    match st
    case Whole(last, b) =>
      b.Placed(cur) && At(src, cur, b.Bits(last)) && cur + |b.Bits(last)| <= 8 * |src|
    case Coded(last, h, ts) =>
      && At(src, cur, Opening(last, h))
      && TokensStand(src, cur + |Opening(last, h)|, LiteralCode(h), DistanceCode(h), ts)
  }

  /** Whole blocks, none of them the final one, and then the start of one more. */
  datatype Front = Front(bs: seq<Block>, st: Start) {
    ghost predicate Valid() {
      st.Valid() && forall i :: 0 <= i < |bs| ==> bs[i].Valid()
    }

    ghost predicate Stands(src: seq<Byte>, cur: nat)
      requires Valid()
      decreases |bs|
    {
      if bs == [] then StartStands(src, cur, st)
      else
        && bs[0].Placed(cur) && At(src, cur, bs[0].Bits(false)) && cur + |bs[0].Bits(false)| <= 8 * |src|
        && Front(bs[1..], st).Stands(src, cur + |bs[0].Bits(false)|)
    }

    ghost function Expand(out: seq<Byte>): Option<seq<Byte>>
      requires Valid()
      decreases |bs|
    {
      if bs == [] then st.Expand(out)
      else
        var r := bs[0].Expand(out);
        if r.None? then None else Front(bs[1..], st).Expand(r.value)
    }
  }

  ghost predicate Over(e: Option<seq<Byte>>, cap: nat) {
    e.Some? && |e.value| > cap
  }

  ghost predicate BufFails(r: Run) {
    r.Fail? && r.status == BufError
  }

  // ---- tokens

  lemma {:induction false} TokensOver(
    src: seq<Byte>, cur: nat, out: seq<Byte>, cap: nat, l: Alphabet, d: Alphabet)
    returns (ts: seq<Token>)
    requires Usable(l, d) && |out| <= cap && BufFails(Tokens(src, cur, out, cap, l, d))
    ensures ValidTokens(ts) && TokensStand(src, cur, l, d, ts) && Over(ExpandTokens(out, ts), cap)
    decreases Unread(src, cur)
  {
    hide At, TokenBits, ReadToken, Extend, Encodable;
    var t, c := ReadToken(src, cur, l, d).t, ReadToken(src, cur, l, d).cur;
    TokenSound(src, cur, l, d);
    var a := Append(out, cap, t);
    if a.Fail? {
      AppendOver(out, cap, t);
      ts := [t];
    } else {
      var rest := TokensOver(src, c, a.out, cap, l, d);
      ts := [t] + rest;
      assert ts[1..] == rest;
    }
  }

  /** A token fails to be appended with a buffer error exactly if its expansion does not fit. */
  lemma AppendOver(out: seq<Byte>, cap: nat, t: Token)
    requires t.Valid() && |out| <= cap
    ensures BufFails(Append(out, cap, t)) <==> Over(ExpandToken(out, t), cap)
    ensures Append(out, cap, t).Done? ==> ExpandToken(out, t) == Some(Append(out, cap, t).out)
    ensures Append(out, cap, t).Fail? && Append(out, cap, t).status == DataError ==> ExpandToken(out, t).None?
  {
    hide Extend;
  }

  lemma {:induction false} TokensFail(
    src: seq<Byte>, cur: nat, out: seq<Byte>, cap: nat, l: Alphabet, d: Alphabet, ts: seq<Token>)
    requires Usable(l, d) && |out| <= cap && ValidTokens(ts) && TokensStand(src, cur, l, d, ts)
    requires Over(ExpandTokens(out, ts), cap)
    ensures BufFails(Tokens(src, cur, out, cap, l, d))
    decreases |ts|
  {
    hide At, TokenBits, ReadToken, Append, ExpandToken, Encodable, Usable;
    var t := ts[0];
    TokenComplete(src, cur, l, d, t);
    AppendOver(out, cap, t);
    if Append(out, cap, t).Done? {
      TokensFail(src, cur + |TokenBits(l, d, t)|, Append(out, cap, t).out, cap, l, d, ts[1..]);
    }
  }

  // ---- blocks

  /** A stored block that does not fit is there as a whole. */
  lemma StoredOver(src: seq<Byte>, cur: nat, out: seq<Byte>, cap: nat) returns (b: Block)
    requires |out| <= cap && BufFails(StoredBlock(src, cur, out, cap))
    ensures b.Stored? && b.Valid() && At(src, cur, b.Body()) && |b.pad| < 8 && (cur + |b.pad|) % 8 == 0
    ensures cur + |b.Body()| <= 8 * |src| && |out + b.data| > cap
  {
    hide At, Block.Body;
    b := StoredSound(src, cur, out, cap + 65536);
  }

  lemma StoredFails(src: seq<Byte>, cur: nat, out: seq<Byte>, cap: nat, b: Block)
    requires b.Stored? && b.Valid() && At(src, cur, b.Body()) && |b.pad| < 8 && (cur + |b.pad|) % 8 == 0
    requires cur + |b.Body()| <= 8 * |src| && |out| <= cap < |out + b.data|
    ensures BufFails(StoredBlock(src, cur, out, cap))
  {
    hide At, Block.Body, StoredBlock;
    StoredComplete(src, cur, out, cap, b);
  }

  /** The opening of a coded block, read. */
  lemma AtOpening(src: seq<Byte>, cur: nat, last: bool, h: Option<Header>)
    requires h.Some? ==> h.value.Valid()
    ensures At(src, cur, Opening(last, h)) <==>
      && BitAt(src, cur) == last && Field(src, cur + 1, 2) == (if h.None? then 1 else 2)
      && (h.Some? ==> At(src, cur + 3, h.value.Bits()))
    ensures |Opening(last, h)| == 3 + if h.None? then 0 else |h.value.Bits()|
  {
    hide At, FieldBits, FieldBetween, Header.Bits, Header.Valid;
    var n := if h.None? then 1 else 2;
    var w := if h.None? then [] else h.value.Bits();
    AtConcat(src, cur, [last], FieldBits(n, 2));
    AtConcat(src, cur, [last] + FieldBits(n, 2), w);
    AtOne(src, cur, last);
    AtEmpty(src, cur + 3);
    Pow2Values();
    FieldIff(src, cur + 1, n, 2);
  }

  lemma BodyOver(src: seq<Byte>, cur: nat, out: seq<Byte>, cap: nat) returns (st: Start)
    requires |out| <= cap && BufFails(BlockBody(src, cur + 3, Field(src, cur + 1, 2), out, cap))
    ensures st.Valid() && StartStands(src, cur, st) && Over(st.Expand(out), cap)
  {
    hide At, Block.Body, Block.Bits, Tokens, ReadHeader, StoredBlock, Field, Header.Bits, Header.Valid;
    var btype, last := Field(src, cur + 1, 2), BitAt(src, cur);
    if btype == 0 {
      var b := StoredOver(src, cur + 3, out, cap);
      AtBlock(src, cur, b, last);
      st := Whole(last, b);
    } else if btype == 1 {
      FixedUsable();
      var ts := TokensOver(src, cur + 3, out, cap, FixedL(), FixedD());
      AtOpening(src, cur, last, None);
      st := Coded(last, None, ts);
    } else {
      st := DynamicOver(src, cur, out, cap);
    }
  }

  lemma DynamicOver(src: seq<Byte>, cur: nat, out: seq<Byte>, cap: nat) returns (st: Start)
    requires |out| <= cap && Field(src, cur + 1, 2) == 2 && BufFails(BlockBody(src, cur + 3, 2, out, cap))
    ensures st.Valid() && StartStands(src, cur, st) && Over(st.Expand(out), cap)
  {
    hide At, Block.Body, Block.Bits, Tokens, ReadHeader, StoredBlock, Field, Header.Bits, Decoding, Acceptable;
    hide ExpandTokens, TokensStand, Usable, Complete, ExpandOps;
    var h := HeaderSound(src, cur + 3);
    var ll, dl := h.Literals(), h.Distances();
    DecodingUsable(ll, dl);
    var c := cur + 3 + |h.Bits()|;
    var ts := TokensOver(src, c, out, cap, Decoding(ll), Decoding(dl));
    SentStand(src, c, ll, dl, ts);
    AtOpening(src, cur, BitAt(src, cur), Some(h));
    st := Coded(BitAt(src, cur), Some(h), ts);
  }

  /** Tokens stand in the codes sent just if they do in the codes decoded with. */
  lemma {:induction false} SentStand(src: seq<Byte>, cur: nat, ll: Lengths, dl: Lengths, ts: seq<Token>)
    requires Acceptable(ll) && Acceptable(dl) && ValidTokens(ts)
    ensures TokensStand(src, cur, Sent(ll), Sent(dl), ts) <==> TokensStand(src, cur, Decoding(ll), Decoding(dl), ts)
    decreases |ts|
  {
    hide At, TokenBits, Acceptable, Codeword, MaxSym, Used, Kraft;
    if ts != [] {
      SentEncodable(ll, dl, ts[0]);
      SentHead(ll, dl, ts[0]);
      if Encodable(Sent(ll), Sent(dl), ts[0]) {
        SentStand(src, cur + |TokenBits(Sent(ll), Sent(dl), ts[0])|, ll, dl, ts[1..]);
      }
    }
  }

  lemma SentHead(ll: Lengths, dl: Lengths, t: Token)
    requires Acceptable(ll) && Acceptable(dl) && t.Valid()
    ensures Encodable(Sent(ll), Sent(dl), t) ==>
      Encodable(Decoding(ll), Decoding(dl), t) && ll[Head(t)] == Decoding(ll).lens[Head(t)]
  {
    SentEncodable(ll, dl, t);
    SentHas(ll, Head(t));
  }

  lemma BodyFails(src: seq<Byte>, cur: nat, out: seq<Byte>, cap: nat, st: Start)
    requires |out| <= cap && st.Valid() && StartStands(src, cur, st) && Over(st.Expand(out), cap)
    ensures BufFails(BlockBody(src, cur + 3, Field(src, cur + 1, 2), out, cap))
  {
    hide At, Block.Body, Block.Bits, Block.Placed, Field, Header.Bits, Header.Valid, BlockBody, ExpandTokens, TokensStand;
    match st
    case Whole(last, b) =>
      AtBlock(src, cur, b, last);
      WholeFails(src, cur, out, cap, b);
    case Coded(last, h, ts) =>
      AtOpening(src, cur, last, h);
      if h.None? {
        FixedFails(src, cur + 3, out, cap, ts);
      } else {
        DynamicFails(src, cur + 3, out, cap, h.value, ts);
      }
  }

  lemma WholeFails(src: seq<Byte>, cur: nat, out: seq<Byte>, cap: nat, b: Block)
    requires b.Stored? && b.Valid() && b.Placed(cur) && At(src, cur + 3, b.Body())
    requires cur + 3 + |b.Body()| <= 8 * |src| && |out| <= cap && Over(b.Expand(out), cap)
    ensures BufFails(BlockBody(src, cur + 3, 0, out, cap))
  {
    hide At, Block.Body, StoredBlock;
    StoredFails(src, cur + 3, out, cap, b);
  }

  lemma FixedFails(src: seq<Byte>, cur: nat, out: seq<Byte>, cap: nat, ts: seq<Token>)
    requires |out| <= cap && ValidTokens(ts) && TokensStand(src, cur, FixedL(), FixedD(), ts)
    requires Over(ExpandTokens(out, ts), cap)
    ensures BufFails(BlockBody(src, cur, 1, out, cap))
  {
    hide At, Tokens, TokensStand, ExpandTokens, FixedL, FixedD, Usable, Complete;
    FixedUsable();
    TokensFail(src, cur, out, cap, FixedL(), FixedD(), ts);
  }

  lemma DynamicFails(src: seq<Byte>, cur: nat, out: seq<Byte>, cap: nat, h: Header, ts: seq<Token>)
    requires |out| <= cap && h.Valid() && At(src, cur, h.Bits()) && ValidTokens(ts)
    requires TokensStand(src, cur + |h.Bits()|, Sent(h.Literals()), Sent(h.Distances()), ts)
    requires Over(ExpandTokens(out, ts), cap)
    ensures BufFails(BlockBody(src, cur, 2, out, cap))
  {
    hide At, Tokens, ReadHeader, StoredBlock, Header.Bits, Decoding, Acceptable, ExpandTokens, TokensStand;
    hide Usable, ExpandOps;
    var ll, dl := h.Literals(), h.Distances();
    HeaderComplete(src, cur, h);
    DecodingUsable(ll, dl);
    SentStand(src, cur + |h.Bits()|, ll, dl, ts);
    TokensFail(src, cur + |h.Bits()|, out, cap, Decoding(ll), Decoding(dl), ts);
  }

  // ---- streams

  lemma {:induction false} StreamOver(src: seq<Byte>, cur: nat, out: seq<Byte>, cap: nat) returns (f: Front)
    requires |out| <= cap && BufFails(Stream(src, cur, out, cap))
    ensures f.Valid() && f.Stands(src, cur) && Over(f.Expand(out), cap)
    decreases Unread(src, cur)
  {
    hide At, FieldBits, FieldBetween, Block.Bits, Block.Body, Block.Expand, Block.Valid, BlockBody, StartStands;
    hide Start.Valid, Start.Expand;
    var r := BlockBody(src, cur + 3, Field(src, cur + 1, 2), out, cap);
    if r.Fail? {
      var st := BodyOver(src, cur, out, cap);
      f := Front([], st);
    } else {
      var b := BodySound(src, cur + 3, Field(src, cur + 1, 2), out, cap);
      FlagField(src, cur);
      AtBlock(src, cur, b, false);
      var g := StreamOver(src, r.cur, r.out, cap);
      f := Front([b] + g.bs, g.st);
      assert f.bs[1..] == g.bs;
      assert b.Placed(cur) by {
        assert cur + 3 + |b.Body()| == r.cur;
      }
    }
  }

  lemma {:induction false} StreamFails(src: seq<Byte>, cur: nat, out: seq<Byte>, cap: nat, f: Front)
    requires |out| <= cap && f.Valid() && f.Stands(src, cur) && Over(f.Expand(out), cap)
    ensures BufFails(Stream(src, cur, out, cap))
    decreases |f.bs|
  {
    hide At, FieldBits, FieldBetween, Block.Bits, Block.Body, Block.Expand, Block.Valid, BlockBody, WriteBlock;
    hide Start.Valid, Start.Expand, StartStands;
    if f.bs == [] {
      BodyFails(src, cur, out, cap, f.st);
    } else {
      var b := f.bs[0];
      AtBlock(src, cur, b, false);
      FlagField(src, cur);
      BodyComplete(src, cur + 3, out, cap, b);
      WriteBlockExpands(out, cap, b);
      var r := WriteBlock(out, cap, b);
      if r.Done? {
        StreamFails(src, cur + |b.Bits(false)|, r.out, cap, Front(f.bs[1..], f.st));
      }
    }
  }

  /** `src` begins with `f`, whose expansion does not fit into `cap` bytes. */
  ghost predicate Overruns(src: seq<Byte>, f: Front, cap: nat) {
    f.Valid() && f.Stands(src, 0) && Over(f.Expand([]), cap)
  }

  /**
   * Inflating ends in a buffer error exactly on inputs in front of which whole blocks, and then whole
   * tokens of one more, expand to more than the destination holds. Every other input is decoded or is a
   * data error: a match that reaches back too far, a header or stored length that is wrong, a code that
   * is no symbol's, the end of the input.
   */
  lemma BufferErrorExact(src: seq<Byte>, cap: nat)
    ensures BufFails(Uncompress(src, cap)) <==> exists f :: Overruns(src, f, cap)
    ensures Uncompress(src, cap).Fail? ==> Uncompress(src, cap).status != Ok
  {
    hide Stream;
    if BufFails(Uncompress(src, cap)) {
      var f := StreamOver(src, 0, [], cap);
      assert Overruns(src, f, cap);
    }
    forall f | Overruns(src, f, cap) ensures BufFails(Uncompress(src, cap)) {
      StreamFails(src, 0, [], cap, f);
    }
  }
}
