/**
 * What inflating computes, as a function of the bit position: every branch of the decoder, with
 * a symbol read being the one whose canonical code stands at the position.
 */
module Decoder {
  import opened Bits
  import opened Huffman
  import opened Deflate
  import opened Options

  datatype Status = Ok | DataError | BufError

  /** The position and output after decoding, or the error and the output written before it. */
  datatype Run =
    | Done(cur: nat, out: seq<Byte>)
    | Fail(status: Status, out: seq<Byte>)

  ghost function Symbol(src: seq<Byte>, cur: nat, lens: Lengths): (r: Option<nat>)
    ensures r.Some? ==> CodeAt(src, cur, lens, r.value)
  {
    if exists s :: CodeAt(src, cur, lens, s) then
      var s :| CodeAt(src, cur, lens, s);
      Some(s)
    else None
  }

  lemma SymbolIs(src: seq<Byte>, cur: nat, lens: Lengths, s: nat)
    requires Fits(lens) && CodeAt(src, cur, lens, s)
    ensures Symbol(src, cur, lens) == Some(s)
  {
    PrefixFree(src, cur, lens, s, Symbol(src, cur, lens).value);
  }

  /** The alphabet the decoder works with for a list of code lengths. */
  function Decoding(lens: Lengths): Alphabet {
    Alphabet(Effective(lens), MaxSym(lens))
  }

  // ---- block data

  datatype Item = Tok(t: Token, cur: nat) | End(cur: nat) | Bad

  ghost function ReadToken(src: seq<Byte>, cur: nat, l: Alphabet, d: Alphabet): (r: Item)
    ensures r.Tok? ==> r.t.Valid() && r.cur > cur && cur < 8 * |src|
    ensures r.End? ==> cur < r.cur <= 8 * |src|
  {
    match Symbol(src, cur, l.lens)
    case None => Bad
    case Some(s) =>
      var c := cur + l.lens[s];
      if c > 8 * |src| then Bad
      else if s < 256 then Tok(Literal(s), c)
      else if s == END_OF_BLOCK then End(c)
      else if s > l.maxSym || s - 257 > 28 || d.maxSym == -1 then Bad
      else ReadMatch(src, c, s - 257, d)
  }

  /** A match after its length code has been read. */
  ghost function ReadMatch(src: seq<Byte>, cur: nat, lc: nat, d: Alphabet): (r: Item)
    requires lc <= 28
    ensures !r.End?
    ensures r.Tok? ==> r.t.Valid() && r.t.Match? && r.cur >= cur
  {
    var c := cur + LengthBits(lc);
    match Symbol(src, c, d.lens)
    case None => Bad
    case Some(dc) =>
      var e := c + d.lens[dc];
      if dc > d.maxSym || dc > 29 then Bad
      else
        Tok(Match(lc, Window(src, cur, LengthBits(lc)), dc, Window(src, e, DistBits(dc))), e + DistBits(dc))
  }

  /** Adding a token to the output, in a destination of `cap` bytes. */
  function Append(out: seq<Byte>, cap: nat, t: Token): (r: Run)
    requires t.Valid() && |out| <= cap
    ensures r.Done? ==> |r.out| <= cap && ExpandToken(out, t) == Some(r.out)
    ensures r.Fail? ==> r.status != Ok && r.out == out
  {
    match t
    case Literal(b) => if |out| == cap then Fail(BufError, out) else Done(0, out + [b])
    case Match(_, _, _, _) =>
      if t.Distance() > |out| then Fail(DataError, out)
      else if cap - |out| < t.Length() then Fail(BufError, out)
      else Done(0, Extend(out, t.Length(), t.Distance()))
  }

  /** Bits that really are in the input; the measure that ends decoding. */
  function Unread(src: seq<Byte>, cur: nat): nat {
    if cur > 8 * |src| then 0 else 8 * |src| - cur + 1
  }

  ghost function Tokens(src: seq<Byte>, cur: nat, out: seq<Byte>, cap: nat, l: Alphabet, d: Alphabet): (r: Run)
    requires |out| <= cap
    ensures r.Done? ==> cur < r.cur <= 8 * |src| && |r.out| <= cap
    ensures r.Fail? ==> r.status != Ok
    decreases Unread(src, cur)
  {
    match ReadToken(src, cur, l, d)
    case Bad => Fail(DataError, out)
    case End(c) => Done(c, out)
    case Tok(t, c) =>
      var a := Append(out, cap, t);
      if a.Fail? then a else Tokens(src, c, a.out, cap, l, d)
  }

  // ---- stored blocks

  function ReadLe16(src: seq<Byte>, p: nat): (v: nat)
    requires p + 1 < |src|
    ensures v < 65536
  {
    src[p] as int + 256 * src[p + 1] as int
  }

  /** The byte after the last one that holds a bit before `cur`. */
  function ByteAfter(cur: nat): nat {
    (cur + 7) / 8
  }

  function StoredBlock(src: seq<Byte>, cur: nat, out: seq<Byte>, cap: nat): (r: Run)
    requires |out| <= cap
    ensures r.Done? ==> cur < r.cur <= 8 * |src| && |r.out| <= cap
    ensures r.Fail? ==> r.status != Ok
  {
    var p := Min(ByteAfter(cur), |src|);
    if |src| - p < 4 then Fail(DataError, out)
    else
      var n := ReadLe16(src, p);
      if n != 65535 - ReadLe16(src, p + 2) then Fail(DataError, out)
      else if |src| - (p + 4) < n then Fail(DataError, out)
      else if cap - |out| < n then Fail(BufError, out)
      else Done(8 * (p + 4 + n), out + src[p + 4..p + 4 + n])
  }

  // ---- dynamic headers

  datatype OpItem = OpRead(op: LengthOp, cur: nat) | BadOp

  ghost function ReadOp(src: seq<Byte>, cur: nat, cl: Alphabet): (r: OpItem)
    requires cl.maxSym <= 18
    ensures r.OpRead? ==> r.op.Valid() && r.cur >= cur
  {
    match Symbol(src, cur, cl.lens)
    case None => BadOp
    case Some(s) =>
      var c := cur + cl.lens[s];
      if s > cl.maxSym then BadOp
      else if s == 16 then OpRead(Again(Window(src, c, 2)), c + 2)
      else if s == 17 then OpRead(Zeros(Window(src, c, 3)), c + 3)
      else if s == 18 then OpRead(ManyZeros(Window(src, c, 7)), c + 7)
      else OpRead(One(s), c)
  }

  datatype LengthsRun = LengthsRead(lens: Lengths, cur: nat) | BadLengths

  ghost function ReadLengths(src: seq<Byte>, cur: nat, cl: Alphabet, total: nat, lens: Lengths): (r: LengthsRun)
    requires |lens| <= total && cl.maxSym <= 18
    ensures r.LengthsRead? ==> |r.lens| == total && r.cur >= cur
    decreases total - |lens|
  {
    if |lens| == total then LengthsRead(lens, cur)
    else
      match ReadOp(src, cur, cl)
      case BadOp => BadLengths
      case OpRead(op, c) =>
        var a := op.Apply(lens);
        if a.None? || |a.value| > total then BadLengths
        else ReadLengths(src, c, cl, total, a.value)
  }

  function ReadSent(src: seq<Byte>, cur: nat, n: nat): (r: seq<nat>)
    ensures |r| == n && forall i :: 0 <= i < n ==> r[i] < 8
    decreases n
  {
    if n == 0 then []
    else
      FieldBound(src, cur, 3);
      Pow2Values();
      [Field(src, cur, 3)] + ReadSent(src, cur + 3, n - 1)
  }

  datatype HeaderRun = HeaderRead(literals: Lengths, distances: Lengths, cur: nat) | BadHeader

  /** The last checks of a header: an end-of-block code, and two lists that can be built. */
  function CheckLengths(lens: Lengths, hlit: nat, cur: nat): (r: HeaderRun)
    requires 257 <= hlit <= |lens|
    ensures r.HeaderRead? ==> r.literals == lens[..hlit] && r.distances == lens[hlit..] && r.cur == cur
    ensures r.HeaderRead? <==> lens[END_OF_BLOCK] > 0 && Acceptable(lens[..hlit]) && Acceptable(lens[hlit..])
  {
    if lens[END_OF_BLOCK] == 0 || !Acceptable(lens[..hlit]) || !Acceptable(lens[hlit..]) then BadHeader
    else HeaderRead(lens[..hlit], lens[hlit..], cur)
  }

  /** The run-length coded lists that follow the code lengths of a header. */
  ghost function ReadLists(src: seq<Byte>, cur: nat, cl: Lengths, hlit: nat, hdist: nat): (r: HeaderRun)
    requires |cl| == 19 && hlit >= 257
    ensures r.HeaderRead? ==> r.cur >= cur && |r.literals| == hlit && |r.distances| == hdist
    ensures r.HeaderRead? ==> r.literals[END_OF_BLOCK] > 0 && Acceptable(r.literals) && Acceptable(r.distances)
  {
    if !Acceptable(cl) || Used(cl) == 0 then BadHeader
    else
      match ReadLengths(src, cur, Decoding(cl), hlit + hdist, [])
      case BadLengths => BadHeader
      case LengthsRead(lens, c) => CheckLengths(lens, hlit, c)
  }

  ghost function ReadHeader(src: seq<Byte>, cur: nat): (r: HeaderRun)
    ensures r.HeaderRead? ==> r.cur > cur && 257 <= |r.literals| <= 286 && |r.distances| <= 30
    ensures r.HeaderRead? ==> r.literals[END_OF_BLOCK] > 0 && Acceptable(r.literals) && Acceptable(r.distances)
  {
    var hlit, hdist, hclen := 257 + Field(src, cur, 5), 1 + Field(src, cur + 5, 5), 4 + Field(src, cur + 10, 4);
    FieldBound(src, cur + 10, 4);
    Pow2Values();
    if hlit > 286 || hdist > 30 then BadHeader
    else
      ReadLists(src, cur + 14 + 3 * hclen, Scatter(Repeat(0, 19), ReadSent(src, cur + 14, hclen), 0), hlit, hdist)
  }

  // ---- streams

  ghost function BlockBody(src: seq<Byte>, cur: nat, btype: nat, out: seq<Byte>, cap: nat): (r: Run)
    requires |out| <= cap
    ensures r.Done? ==> cur < r.cur <= 8 * |src| && |r.out| <= cap
    ensures r.Fail? ==> r.status != Ok
  {
    if btype == 0 then StoredBlock(src, cur, out, cap)
    else if btype == 1 then Tokens(src, cur, out, cap, FixedL(), FixedD())
    else if btype == 2 then
      match ReadHeader(src, cur)
      case BadHeader => Fail(DataError, out)
      case HeaderRead(l, d, c) => Tokens(src, c, out, cap, Decoding(l), Decoding(d))
    else Fail(DataError, out)
  }

  ghost function Stream(src: seq<Byte>, cur: nat, out: seq<Byte>, cap: nat): (r: Run)
    requires |out| <= cap
    ensures r.Done? ==> cur < r.cur <= 8 * |src| && |r.out| <= cap
    ensures r.Fail? ==> r.status != Ok
    decreases Unread(src, cur)
  {
    var r := BlockBody(src, cur + 3, Field(src, cur + 1, 2), out, cap);
    if r.Fail? || Field(src, cur, 1) == 1 then r else Stream(src, r.cur, r.out, cap)
  }

  /** Inflating `src` into a destination of `cap` bytes. */
  ghost function Uncompress(src: seq<Byte>, cap: nat): Run {
    Stream(src, 0, [], cap)
  }
}
