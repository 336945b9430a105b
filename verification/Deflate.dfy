/**
 * The DEFLATE format as a printer: blocks to bits (sections 3.2.3 to 3.2.7 of RFC 1951) and
 * blocks to bytes (sections 2 and 3.2.5). Nothing here mentions how a decoder works.
 */
module Deflate {
  import opened Bits
  import opened Huffman
  import opened Options

  // ---- the code tables of section 3.2.5

  /** The number of extra bits of a length code. */
  function LengthBits(c: nat): (b: nat)
    requires c <= 28
    ensures b <= 5
  {
    if c < 8 || c == 28 then 0 else c / 4 - 1
  }

  /** The smallest length of a length code. */
  function LengthBase(c: nat): (b: nat)
    requires c <= 28
    ensures 3 <= b <= 258
  {
    if c < 8 then 3 + c
    else if c < 12 then 11 + 2 * (c - 8)
    else if c < 16 then 19 + 4 * (c - 12)
    else if c < 20 then 35 + 8 * (c - 16)
    else if c < 24 then 67 + 16 * (c - 20)
    else if c < 28 then 131 + 32 * (c - 24)
    else 258
  }

  /** The number of extra bits of a distance code. */
  function DistBits(c: nat): (b: nat)
    requires c <= 29
    ensures b <= 13
  {
    if c < 4 then 0 else c / 2 - 1
  }

  /** The smallest distance of a distance code. */
  function DistBase(c: nat): (b: nat)
    requires c <= 29
    ensures b >= 1
  {
    if c < 4 then c + 1
    else if c % 2 == 0 then 2 * Pow2(c / 2 - 1) + 1
    else 3 * Pow2(c / 2 - 1) + 1
  }

  // ---- tokens

  /** A literal byte, or a match given by its length and distance codes and their extra bits. */
  datatype Token =
    | Literal(b: Byte)
    | Match(lc: nat, lx: seq<bool>, dc: nat, dx: seq<bool>)
  {
    predicate Valid() {
      Match? ==> lc <= 28 && |lx| == LengthBits(lc) && dc <= 29 && |dx| == DistBits(dc)
    }

    function Length(): nat
      requires Match? && Valid()
    {
      LengthBase(lc) + Value(lx)
    }

    function Distance(): nat
      requires Match? && Valid()
    {
      DistBase(dc) + Value(dx)
    }
  }

  /** Copying `n` bytes from `d` back, one at a time, so that a copy may overlap itself. */
  function Extend(out: seq<Byte>, n: nat, d: nat): (r: seq<Byte>)
    requires 1 <= d <= |out|
    ensures |r| == |out| + n
    decreases n
  {
    if n == 0 then out else Extend(out + [out[|out| - d]], n - 1, d)
  }

  /** What a token appends to the output; nothing when it reaches back too far. */
  function ExpandToken(out: seq<Byte>, t: Token): Option<seq<Byte>>
    requires t.Valid()
  {
    match t
    case Literal(b) => Some(out + [b])
    case Match(_, _, _, _) =>
      if t.Distance() > |out| then None else Some(Extend(out, t.Length(), t.Distance()))
  }

  predicate ValidTokens(ts: seq<Token>) {
    forall i :: 0 <= i < |ts| ==> ts[i].Valid()
  }

  function ExpandTokens(out: seq<Byte>, ts: seq<Token>): Option<seq<Byte>>
    requires ValidTokens(ts)
    decreases |ts|
  {
    if ts == [] then Some(out)
    else
      var r := ExpandToken(out, ts[0]);
      if r.None? then None else ExpandTokens(r.value, ts[1..])
  }

  /** A code together with the largest symbol that means something in it. */
  datatype Alphabet = Alphabet(lens: Lengths, maxSym: int) {
    predicate Has(s: nat) {
      HasCode(lens, s) && s <= maxSym
    }
  }

  const END_OF_BLOCK: nat := 256

  /** The codes a token needs exist. */
  predicate Encodable(l: Alphabet, d: Alphabet, t: Token) {
    match t
    case Literal(b) => l.Has(b)
    case Match(lc, _, dc, _) => l.Has(257 + lc) && d.Has(dc)
  }

  function TokenBits(l: Alphabet, d: Alphabet, t: Token): (w: seq<bool>)
    requires t.Valid() && Encodable(l, d, t)
  {
    match t
    case Literal(b) => Codeword(l.lens, b)
    case Match(lc, lx, dc, dx) =>
      Codeword(l.lens, 257 + lc) + lx + Codeword(d.lens, dc) + dx
  }

  /** The literal and length symbol of a token, which is what comes first of it. */
  function Head(t: Token): nat {
    match t
    case Literal(b) => b
    case Match(lc, _, _, _) => 257 + lc
  }

  predicate EncodableTokens(l: Alphabet, d: Alphabet, ts: seq<Token>) {
    l.Has(END_OF_BLOCK) && forall i :: 0 <= i < |ts| ==> Encodable(l, d, ts[i])
  }

  /** The tokens of a block, closed by the end-of-block code. */
  function TokensBits(l: Alphabet, d: Alphabet, ts: seq<Token>): seq<bool>
    requires ValidTokens(ts) && EncodableTokens(l, d, ts)
  {
    if ts == [] then Codeword(l.lens, END_OF_BLOCK)
    else TokenBits(l, d, ts[0]) + TokensBits(l, d, ts[1..])
  }

  // ---- fixed codes, section 3.2.6

  function FixedLength(s: nat): nat {
    if s < 144 then 8 else if s < 256 then 9 else if s < 280 then 7 else 8
  }

  /** The 288 literal and length codes; symbols 286 and 287 take part but never occur. */
  function FixedL(): (a: Alphabet) {
    Alphabet(seq(288, s requires 0 <= s < 288 => FixedLength(s)), 285)
  }

  /** The 32 distance codes of five bits; symbols 30 and 31 take part but never occur. */
  function FixedD(): (a: Alphabet) {
    Alphabet(Repeat(5, 32), 29)
  }

  // ---- dynamic codes, section 3.2.7

  /** The symbol whose code length is sent in place `i`. */
  function CodeLengthOrder(i: nat): (s: nat)
    requires i < 19
    ensures s < 19
  {
    if i < 3 then 16 + i
    else if i == 3 then 0
    else if i % 2 == 0 then 6 + i / 2
    else 9 - i / 2
  }

  /** One step of the run-length coded list of code lengths. */
  datatype LengthOp =
    | One(len: nat)
    | Again(x: seq<bool>)
    | Zeros(x: seq<bool>)
    | ManyZeros(x: seq<bool>)
  {
    predicate Valid() {
      match this
      case One(len) => len <= MAX_BITS
      case Again(x) => |x| == 2
      case Zeros(x) => |x| == 3
      case ManyZeros(x) => |x| == 7
    }

    function Symbol(): nat {
      match this
      case One(len) => len
      case Again(_) => 16
      case Zeros(_) => 17
      case ManyZeros(_) => 18
    }

    function ExtraBits(): seq<bool> {
      match this
      case One(_) => []
      case Again(x) => x
      case Zeros(x) => x
      case ManyZeros(x) => x
    }

    /** The list of lengths with this step added; none for a repeat with nothing before it. */
    function Apply(lens: Lengths): (r: Option<Lengths>)
      requires Valid()
      ensures r.Some? ==> |r.value| > |lens| && lens <= r.value
    {
      match this
      case One(len) => Some(lens + [len])
      case Again(x) =>
        if lens == [] then None else Some(lens + Repeat(lens[|lens| - 1], 3 + Value(x)))
      case Zeros(x) => Some(lens + Repeat(0, 3 + Value(x)))
      case ManyZeros(x) => Some(lens + Repeat(0, 11 + Value(x)))
    }
  }

  function Repeat(v: nat, n: nat): (r: seq<nat>)
    ensures |r| == n && forall i :: 0 <= i < n ==> r[i] == v
  {
    seq(n, i => v)
  }

  predicate ValidOps(ops: seq<LengthOp>) {
    forall i :: 0 <= i < |ops| ==> ops[i].Valid()
  }

  function ExpandOps(lens: Lengths, ops: seq<LengthOp>): Option<Lengths>
    requires ValidOps(ops)
    decreases |ops|
  {
    if ops == [] then Some(lens)
    else
      var r := ops[0].Apply(lens);
      if r.None? then None else ExpandOps(r.value, ops[1..])
  }

  function OpsBits(cl: Lengths, ops: seq<LengthOp>): seq<bool>
    requires forall i :: 0 <= i < |ops| ==> HasCode(cl, ops[i].Symbol())
  {
    if ops == [] then []
    else
      assert HasCode(cl, ops[0].Symbol());
      Codeword(cl, ops[0].Symbol()) + ops[0].ExtraBits() + OpsBits(cl, ops[1..])
  }

  /** The code lengths of the code length code, scattered from their order of transmission. */
  function Scatter(acc: Lengths, sent: seq<nat>, i: nat): (r: Lengths)
    requires |acc| == 19 && i <= |sent| <= 19
    requires forall k :: 0 <= k < |sent| ==> sent[k] < 8
    ensures |r| == 19
    decreases |sent| - i
  {
    if i == |sent| then acc
    else
      Scatter(acc[CodeLengthOrder(i) := sent[i]], sent, i + 1)
  }

  function ThreeBitFields(sent: seq<nat>): (w: seq<bool>)
    ensures |w| == 3 * |sent|
  {
    if sent == [] then [] else FieldBits(sent[0], 3) + ThreeBitFields(sent[1..])
  }

  /** The alphabet that a list of sent lengths defines. */
  function Sent(lens: Lengths): Alphabet {
    Alphabet(lens, |lens|)
  }

  /** The header of a dynamic block; repeats may run from literal into distance lengths. */
  datatype Header = Header(hlit: nat, hdist: nat, sent: seq<nat>, ops: seq<LengthOp>) {
    predicate Valid() {
      && 257 <= hlit <= 286 && 1 <= hdist <= 30
      && 4 <= |sent| <= 19 && (forall k :: 0 <= k < |sent| ==> sent[k] < 8)
      && ValidOps(ops)
      && Acceptable(CodeLengths()) && Used(CodeLengths()) > 0
      && (forall i :: 0 <= i < |ops| ==> HasCode(CodeLengths(), ops[i].Symbol()))
      && ExpandOps([], ops).Some? && |Lens()| == hlit + hdist
      && Lens()[END_OF_BLOCK] > 0
      && Acceptable(Literals()) && Acceptable(Distances())
    }

    function CodeLengths(): Lengths
      requires |sent| <= 19 && (forall k :: 0 <= k < |sent| ==> sent[k] < 8)
    {
      Scatter(Repeat(0, 19), sent, 0)
    }

    function Lens(): Lengths
      requires ValidOps(ops) && ExpandOps([], ops).Some?
    {
      ExpandOps([], ops).value
    }

    function Literals(): Lengths
      requires ValidOps(ops) && ExpandOps([], ops).Some? && |Lens()| == hlit + hdist
    {
      Lens()[..hlit]
    }

    function Distances(): Lengths
      requires ValidOps(ops) && ExpandOps([], ops).Some? && |Lens()| == hlit + hdist
    {
      Lens()[hlit..]
    }

    function Bits(): seq<bool>
      requires Valid()
    {
      FieldBits(hlit - 257, 5) + FieldBits(hdist - 1, 5) + FieldBits(|sent| - 4, 4)
      + ThreeBitFields(sent) + OpsBits(CodeLengths(), ops)
    }
  }

  // ---- blocks and streams

  datatype Block =
    | Stored(pad: seq<bool>, data: seq<Byte>)
    | Fixed(ts: seq<Token>)
    | Dynamic(h: Header, ts: seq<Token>)
  {
    predicate Valid() {
      match this
      case Stored(_, data) => |data| < 65536
      case Fixed(ts) => ValidTokens(ts) && EncodableTokens(FixedL(), FixedD(), ts)
      case Dynamic(h, ts) =>
        && h.Valid() && ValidTokens(ts)
        && EncodableTokens(Sent(h.Literals()), Sent(h.Distances()), ts)
    }

    function Type(): nat {
      match this
      case Stored(_, _) => 0
      case Fixed(_) => 1
      case Dynamic(_, _) => 2
    }

    /** What follows the three header bits. */
    function Body(): seq<bool>
      requires Valid()
    {
      match this
      case Stored(pad, data) =>
        pad + FieldBits(|data|, 16) + FieldBits(65535 - |data|, 16) + BytesBits(data)
      case Fixed(ts) => TokensBits(FixedL(), FixedD(), ts)
      case Dynamic(h, ts) => h.Bits() + TokensBits(Sent(h.Literals()), Sent(h.Distances()), ts)
    }

    function Bits(last: bool): seq<bool>
      requires Valid()
    {
      [last] + FieldBits(Type(), 2) + Body()
    }

    /** A stored block that starts at bit `cur` is padded to the next byte boundary. */
    predicate Placed(cur: nat) {
      Stored? ==> |pad| < 8 && (cur + 3 + |pad|) % 8 == 0
    }

    function Expand(out: seq<Byte>): Option<seq<Byte>>
      requires Valid()
    {
      match this
      case Stored(_, data) => Some(out + data)
      case Fixed(ts) => ExpandTokens(out, ts)
      case Dynamic(_, ts) => ExpandTokens(out, ts)
    }
  }

  predicate ValidBlocks(bs: seq<Block>) {
    bs != [] && bs[0].Valid() && (|bs| == 1 || ValidBlocks(bs[1..]))
  }

  /** The bits of a stream; only the last block carries the final flag. */
  function StreamBits(bs: seq<Block>): seq<bool>
    requires ValidBlocks(bs)
  {
    if |bs| == 1 then bs[0].Bits(true) else bs[0].Bits(false) + StreamBits(bs[1..])
  }

  /** Every stored block of a stream that starts at bit `cur` is aligned. */
  predicate PlacedBlocks(cur: nat, bs: seq<Block>)
    requires ValidBlocks(bs)
    decreases |bs|
  {
    && bs[0].Placed(cur)
    && (|bs| > 1 ==> PlacedBlocks(cur + |bs[0].Bits(false)|, bs[1..]))
  }

  function ExpandBlocks(out: seq<Byte>, bs: seq<Block>): Option<seq<Byte>>
    requires ValidBlocks(bs)
    decreases |bs|
  {
    var r := bs[0].Expand(out);
    if r.None? || |bs| == 1 then r else ExpandBlocks(r.value, bs[1..])
  }
}
