/** Which texts are unpacked, and to what: the text as a list of pieces around each token `"data"`. */
module MassageText {
  import opened Options
  import opened Search
  import opened Massaging

  /** A character of a string: as itself, or behind a backslash. */
  datatype Chr = Lit(b: Octet) | Esc(b: Octet)

  predicate GoodChars(cs: seq<Chr>) {
    forall i :: 0 <= i < |cs| && cs[i].Lit? ==> cs[i].b != QUOTE && cs[i].b != BACKSLASH
  }

  function ShowChars(cs: seq<Chr>): seq<Octet> {
    if cs == [] then []
    else (if cs[0].Lit? then [cs[0].b] else [BACKSLASH, cs[0].b]) + ShowChars(cs[1..])
  }

  function Letters(cs: seq<Chr>): seq<Octet> {
    if cs == [] then [] else [cs[0].b] + Letters(cs[1..])
  }

  /** Text up to a token and what follows it: a string after a colon, or something else. */
  datatype Piece =
    | Str(plain: seq<Octet>, gap: seq<Octet>, gap': seq<Octet>, chars: seq<Chr>)
    | NoColon(plain: seq<Octet>, gap: seq<Octet>, b: Octet)
    | NoQuote(plain: seq<Octet>, gap: seq<Octet>, gap': seq<Octet>, b: Octet)

  predicate White(s: seq<Octet>) {
    forall i :: 0 <= i < |s| ==> s[i] <= SPACE
  }

  predicate Good(p: Piece) {
    && NoneBefore(p.plain + Token(), Token(), |p.plain|) && White(p.gap)
    && match p
       case Str(_, _, gap', cs) => White(gap') && GoodChars(cs)
       case NoColon(_, _, b) => b > SPACE && b != COLON
       case NoQuote(_, _, gap', b) => White(gap') && b > SPACE && b != QUOTE
  }

  /** What of a piece is copied as it is. */
  function Head(p: Piece): seq<Octet> {
    match p
    case Str(plain, gap, gap', _) => plain + Token() + gap + [COLON] + gap'
    case NoColon(plain, gap, b) => plain + Token() + gap + [b]
    case NoQuote(plain, gap, gap', b) => plain + Token() + gap + [COLON] + gap' + [b]
  }

  function Show(p: Piece): (r: seq<Octet>)
    ensures r != []
  {
    if p.Str? then Head(p) + [QUOTE] + ShowChars(p.chars) + [QUOTE] else Head(p)
  }

  function Result(p: Piece): seq<Octet> {
    if p.Str? then Head(p) + Letters(p.chars) else Head(p)
  }

  function ShowAll(ps: seq<Piece>, tail: seq<Octet>): seq<Octet> {
    if ps == [] then tail else Show(ps[0]) + ShowAll(ps[1..], tail)
  }

  function ResultAll(ps: seq<Piece>, tail: seq<Octet>): seq<Octet> {
    if ps == [] then tail else Result(ps[0]) + ResultAll(ps[1..], tail)
  }

  predicate GoodText(ps: seq<Piece>, tail: seq<Octet>) {
    (forall i :: 0 <= i < |ps| ==> Good(ps[i])) && Leftmost(tail, Token(), None)
  }

  // ---- a text of pieces is unpacked piece by piece

  lemma {:induction false} BlanksTo(s: seq<Octet>, i: nat, j: nat)
    requires i <= j < |s| && White(s[i..j]) && s[j] > SPACE
    ensures Blanks(s, i) == Some(j)
    decreases j - i
  {
    if i < j {
      assert s[i..j][0] == s[i] && s[i + 1..j] == s[i..j][1..];
      BlanksTo(s, i + 1, j);
    }
  }

  lemma {:induction false} UnpackedChars(cs: seq<Chr>, rest: seq<Octet>)
    requires GoodChars(cs)
    ensures Unpacked(ShowChars(cs) + [QUOTE] + rest) == Prepend(Letters(cs), Massaged(rest))
    decreases |cs|
  {
    hide Massaged, Prepend;
    var w := ShowChars(cs) + [QUOTE] + rest;
    if cs == [] {
      assert w[1..] == rest;
      PrependNothing(Massaged(rest));
    } else {
      var c := if cs[0].Lit? then [cs[0].b] else [BACKSLASH, cs[0].b];
      var more := ShowChars(cs[1..]) + [QUOTE] + rest;
      UnpackedChars(cs[1..], rest);
      Halves(c, more);
      assert w == c + more by {
        Regroup(c, ShowChars(cs[1..]), [QUOTE], rest);
      }
      assert c[|c| - 1..|c|] == [cs[0].b] && w[|c| - 1..|c|] == [cs[0].b];
      PrependTwice([cs[0].b], Letters(cs[1..]), Massaged(rest));
    }
  }

  lemma Regroup(a: seq<Octet>, b: seq<Octet>, c: seq<Octet>, d: seq<Octet>)
    ensures a + b + c + d == a + (b + c + d)
  {
  }

  lemma Halves(a: seq<Octet>, b: seq<Octet>)
    ensures (a + b)[..|a|] == a && (a + b)[|a|..] == b
  {
  }

  lemma HeadStart(p: Piece)
    ensures |p.plain| + 6 <= |Head(p)| && Head(p)[..|p.plain| + 6] == p.plain + Token()
  {
    hide Token;
    Halves(p.plain + Token(), Head(p)[|p.plain| + 6..]);
  }

  /** The first token of a piece stands behind its plain text. */
  lemma TokenOf(p: Piece, rest: seq<Octet>)
    requires Good(p)
    ensures Naive(Head(p) + rest, Token()) == Some(|p.plain|)
  {
    hide GoodChars, White, Naive, Token, Head;
    var w, n := Head(p) + rest, |p.plain|;
    HeadStart(p);
    assert w[..n + 6] == Head(p)[..n + 6];
    assert w[n..n + 6] == w[..n + 6][n..];
    Halves(p.plain, Token());
    forall j: nat | j < n ensures !Occurs(w, Token(), j) {
      assert w[j..j + 6] == w[..n + 6][j..j + 6];
      assert !Occurs(p.plain + Token(), Token(), j);
    }
    NaiveLeftmost(w, Token(), 0, Some(n));
  }

  /** Where the white space of a piece stands, and what stops it. */
  lemma GapOf(p: Piece, rest: seq<Octet>)
    ensures var w, i := Head(p) + rest, |p.plain| + 6;
      var j := i + |p.gap|;
      && j < |Head(p)| && w[i..j] == p.gap && (p.NoColon? ==> w[j] == p.b && |Head(p)| == j + 1)
      && (!p.NoColon? ==>
          var k := j + 1 + |p.gap'|;
          && w[j] == COLON && k <= |Head(p)| && w[j + 1..k] == p.gap'
          && (p.Str? ==> |Head(p)| == k) && (p.NoQuote? ==> |Head(p)| == k + 1 && w[k] == p.b))
  {
    hide Token;
    var a := p.plain + Token();
    var w, i := Head(p) + rest, |a|;
    var j := i + |p.gap|;
    match p
    case NoColon(_, gap, b) =>
      Nested(a, gap, [b], [], rest);
      Cut(w, i, gap, [b] + ([] + rest));
    case Str(_, gap, gap', _) =>
      Nested(a, gap, [COLON], gap', rest);
      TwoGaps(w, i, gap, gap', rest);
    case NoQuote(_, gap, gap', b) =>
      Nested(a, gap, [COLON], gap', [b] + rest);
      assert w == a + gap + [COLON] + gap' + ([b] + rest);
      TwoGaps(w, i, gap, gap', [b] + rest);
  }

  lemma Nested(a: seq<Octet>, b: seq<Octet>, c: seq<Octet>, d: seq<Octet>, e: seq<Octet>)
    ensures (a + b + c + d + e)[|a|..] == b + (c + (d + e))
    ensures a + b + c + [] + e == a + b + c + e
  {
  }

  lemma Cut(w: seq<Octet>, i: nat, g: seq<Octet>, x: seq<Octet>)
    requires i <= |w| && w[i..] == g + x
    ensures i + |g| <= |w| && w[i..i + |g|] == g && w[i + |g|..] == x && (x != [] ==> w[i + |g|] == x[0])
  {
    assert w[i..i + |g|] == w[i..][..|g|] && w[i + |g|..] == w[i..][|g|..];
    assert x != [] ==> w[i..][|g|] == w[i + |g|];
  }

  lemma TwoGaps(w: seq<Octet>, i: nat, g: seq<Octet>, h: seq<Octet>, x: seq<Octet>)
    requires i <= |w| && w[i..] == g + ([COLON] + (h + x))
    ensures var j := i + |g|;
      var k := j + 1 + |h|;
      && k <= |w| && w[i..j] == g && w[j] == COLON && w[j + 1..k] == h && (x != [] ==> w[k] == x[0])
  {
    Cut(w, i, g, [COLON] + (h + x));
    Cut(w, i + |g|, [COLON], h + x);
    Cut(w, i + |g| + 1, h, x);
  }

  /** What stands behind the token of a piece. */
  lemma ProbeOf(p: Piece, rest: seq<Octet>)
    requires Good(p) && (p.Str? ==> rest != [] && rest[0] == QUOTE)
    ensures ProbeAt(Head(p) + rest, |p.plain| + 6) == if p.Str? then Opens(|Head(p)|) else Other(|Head(p)|)
  {
    hide Blanks, GoodChars, Token, White, Head, Leftmost;
    var w := Head(p) + rest;
    var i := |p.plain| + 6;
    var j := i + |p.gap|;
    GapOf(p, rest);
    BlanksTo(w, i, j);
    if !p.NoColon? {
      BlanksTo(w, j + 1, j + 1 + |p.gap'|);
    }
  }

  lemma ShowCut(p: Piece, rest: seq<Octet>)
    ensures Show(p) + rest == Head(p) + if p.Str? then [QUOTE] + (ShowChars(p.chars) + [QUOTE] + rest) else rest
  {
    hide Head, ShowChars;
  }

  lemma PieceStep(p: Piece, rest: seq<Octet>)
    requires Good(p)
    ensures Massaged(Show(p) + rest) == Prepend(Result(p), Massaged(rest))
  {
    hide Massaged, Unpacked, ProbeAt, Prepend, Naive, Head, Good, ShowChars, Letters, Show;
    var h := Head(p);
    var more := (if p.Str? then ShowChars(p.chars) else []) + [QUOTE] + rest;
    var after := if p.Str? then [QUOTE] + more else rest;
    ShowCut(p, rest);
    TokenOf(p, after);
    ProbeOf(p, after);
    MassagedUnfold(h + after);
    Halves(h, after);
    if p.Str? {
      BehindQuote(h, more);
      GoodStr(p);
      UnpackedChars(p.chars, rest);
      PrependTwice(h, Letters(p.chars), Massaged(rest));
    }
  }

  lemma BehindQuote(a: seq<Octet>, b: seq<Octet>)
    ensures (a + ([QUOTE] + b))[|a| + 1..] == b
  {
  }

  lemma GoodStr(p: Piece)
    requires Good(p) && p.Str?
    ensures GoodChars(p.chars)
  {
  }

  lemma {:induction false} ShownUnpacked(ps: seq<Piece>, tail: seq<Octet>)
    requires GoodText(ps, tail)
    ensures Massaged(ShowAll(ps, tail)) == Some(ResultAll(ps, tail))
    decreases |ps|
  {
    hide Massaged, Naive, Good, Show, Result;
    if ps == [] {
      NaiveLeftmost(tail, Token(), 0, None);
      MassagedUnfold(tail);
    } else {
      ShownUnpacked(ps[1..], tail);
      PieceStep(ps[0], ShowAll(ps[1..], tail));
    }
  }

  // ---- and every text that can be read is one of pieces

  lemma {:induction false} BlanksFrom(s: seq<Octet>, i: nat)
    ensures Blanks(s, i).Some? ==> White(s[i..Blanks(s, i).value])
    decreases |s| - i
  {
    if i < |s| && s[i] <= SPACE {
      BlanksFrom(s, i + 1);
      var r := Blanks(s, i);
      if r.Some? {
        assert s[i..r.value] == [s[i]] + s[i + 1..r.value];
      }
    }
  }

  lemma {:induction false} CharsOf(s: seq<Octet>) returns (cs: seq<Chr>, rest: seq<Octet>)
    requires Unpacked(s).Some?
    ensures s == ShowChars(cs) + [QUOTE] + rest && GoodChars(cs) && Massaged(rest).Some? && |rest| < |s|
    decreases |s|
  {
    hide Massaged;
    if s[0] == QUOTE {
      cs, rest := [], s[1..];
    } else {
      var c, n := if s[0] == BACKSLASH then Esc(s[1]) else Lit(s[0]), if s[0] == BACKSLASH then 2 else 1;
      cs, rest := CharsOf(s[n..]);
      assert s == s[..n] + s[n..] && s[..n] == if c.Lit? then [c.b] else [BACKSLASH, c.b];
      assert ([c] + cs)[1..] == cs;
      assert s == ShowChars([c] + cs) + [QUOTE] + rest;
      cs := [c] + cs;
    }
  }

  /** The first piece of a text with a token, without the string. */
  lemma HeadOf(s: seq<Octet>, k: nat) returns (p: Piece, rest: seq<Octet>)
    requires Massaged(s).Some? && Naive(s, Token()) == Some(k) && Leftmost(s, Token(), Some(k))
    ensures s == Head(p) + rest && Good(p) && |rest| < |s|
    ensures !p.Str? ==> Massaged(rest).Some?
    ensures p.Str? ==> p.chars == [] && rest != [] && rest[0] == QUOTE && Unpacked(rest[1..]).Some?
  {
    hide Massaged, Naive, Unpacked, ProbeAt, Token, White, NoneBefore, Head, Prepend;
    MassagedUnfold(s);
    PlainPart(s, k);
    PrependNone();
    var i := k + 6;
    var j, l := ProbeParts(s, i);
    var gap, end := s[i..j], j + 1;
    if s[j] != COLON {
      p := NoColon(s[..k], gap, s[j]);
      HeadEnd(s, s[..k], i, j);
    } else {
      HeadColon(s, s[..k], i, j, l);
      p := if s[l] == QUOTE then Str(s[..k], gap, s[j + 1..l], []) else NoQuote(s[..k], gap, s[j + 1..l], s[l]);
      end := if s[l] == QUOTE then l else l + 1;
    }
    rest := s[end..];
    assert s == s[..end] + rest;
    if p.Str? {
      assert rest[1..] == s[end + 1..];
    }
  }

  lemma PrependNone()
    ensures forall a: seq<Octet>, r: Option<seq<Octet>> :: Prepend(a, r).Some? ==> r.Some?
  {
  }

  /** What was read behind a token. */
  lemma ProbeParts(s: seq<Octet>, i: nat) returns (j: nat, l: nat)
    requires !ProbeAt(s, i).Leaves?
    ensures i <= j < |s| && White(s[i..j]) && s[j] > SPACE
    ensures s[j] != COLON ==> ProbeAt(s, i) == Other(j + 1)
    ensures s[j] == COLON ==> j < l < |s| && White(s[j + 1..l]) && s[l] > SPACE
    ensures s[j] == COLON ==> ProbeAt(s, i) == if s[l] == QUOTE then Opens(l) else Other(l + 1)
  {
    hide White, Blanks;
    BlanksFrom(s, i);
    j, l := Blanks(s, i).value, 0;
    if s[j] == COLON {
      BlanksFrom(s, j + 1);
      l := Blanks(s, j + 1).value;
    }
  }

  lemma HeadEnd(s: seq<Octet>, plain: seq<Octet>, i: nat, j: nat)
    requires i <= j < |s| && s[..i] == plain + Token()
    ensures Head(NoColon(plain, s[i..j], s[j])) == s[..j + 1]
  {
    hide Token;
    assert s[..j] == s[..i] + s[i..j];
  }

  lemma HeadColon(s: seq<Octet>, plain: seq<Octet>, i: nat, j: nat, l: nat)
    requires i <= j < l < |s| && s[..i] == plain + Token() && s[j] == COLON
    ensures Head(Str(plain, s[i..j], s[j + 1..l], [])) == s[..l]
    ensures Head(NoQuote(plain, s[i..j], s[j + 1..l], s[l])) == s[..l + 1]
  {
    hide Token;
    assert s[..j] == s[..i] + s[i..j];
    assert s[..l] == s[..j] + [COLON] + s[j + 1..l];
  }

  /** The first piece of a text with a token. */
  lemma PieceOf(s: seq<Octet>, k: nat) returns (p: Piece, rest: seq<Octet>)
    requires Massaged(s).Some? && Naive(s, Token()) == Some(k) && Leftmost(s, Token(), Some(k))
    ensures s == Show(p) + rest && Good(p) && Massaged(rest).Some? && |rest| < |s|
  {
    hide Massaged, Naive, Unpacked, ShowChars, GoodChars, NoneBefore, White, Token;
    p, rest := HeadOf(s, k);
    if p.Str? {
      var h, cs := Head(p), [];
      var all := rest;
      cs, rest := CharsOf(all[1..]);
      assert all == [QUOTE] + all[1..];
      assert s == h + [QUOTE] + ShowChars(cs) + [QUOTE] + rest;
      p := p.(chars := cs);
    }
  }

  lemma PlainPart(s: seq<Octet>, k: nat)
    requires Leftmost(s, Token(), Some(k))
    ensures k + 6 <= |s| && s[..k] + Token() == s[..k + 6] && NoneBefore(s[..k] + Token(), Token(), k)
  {
    assert Occurs(s, Token(), k);
    assert s[..k + 6] == s[..k] + s[k..k + 6];
    forall j: nat | j < k ensures !Occurs(s[..k] + Token(), Token(), j) {
      assert !Occurs(s, Token(), j);
      assert s[..k + 6][j..j + 6] == s[j..j + 6];
    }
  }

  lemma {:induction false} TextOf(s: seq<Octet>) returns (ps: seq<Piece>, tail: seq<Octet>)
    requires Massaged(s).Some?
    ensures GoodText(ps, tail) && ShowAll(ps, tail) == s
    decreases |s|
  {
    hide Massaged, Naive, Good, Show;
    var at := SearchFor(s);
    if at.None? {
      ps, tail := [], s;
    } else {
      var p, rest := PieceOf(s, at.value);
      ps, tail := TextOf(rest);
      assert ([p] + ps)[1..] == ps;
      ps := [p] + ps;
    }
  }

  /** The leftmost token, as the naive search has it. */
  lemma SearchFor(s: seq<Octet>) returns (at: Option<nat>)
    ensures Leftmost(s, Token(), at) && at == Naive(s, Token())
  {
    at := Naive(s, Token());
    NaiveSound(s, Token(), 0);
  }

  /**
   * Unpacking is exact: reading stays within the text, and gives `r`, if and only if the text is a
   * list of pieces, of which `r` is the text with each string unquoted and each backslash dropped.
   */
  lemma MassagedExact(s: seq<Octet>, r: seq<Octet>)
    ensures Massaged(s) == Some(r)
       <==> exists ps: seq<Piece>, tail: seq<Octet> ::
              GoodText(ps, tail) && ShowAll(ps, tail) == s && ResultAll(ps, tail) == r
  {
    hide Massaged, GoodText, ShowAll, ResultAll;
    if Massaged(s) == Some(r) {
      var ps, tail := TextOf(s);
      ShownUnpacked(ps, tail);
    }
    forall ps: seq<Piece>, tail: seq<Octet> | GoodText(ps, tail) && ShowAll(ps, tail) == s
      ensures Massaged(s) == Some(ResultAll(ps, tail))
    {
      ShownUnpacked(ps, tail);
    }
  }

  /** A string's quotes and backslashes behind a backslash each. */
  function Escape(s: seq<Octet>): seq<Chr> {
    if s == [] then []
    else [if s[0] == QUOTE || s[0] == BACKSLASH then Esc(s[0]) else Lit(s[0])] + Escape(s[1..])
  }

  /** Any content, escaped, comes back. */
  lemma {:induction false} EscapeUndone(s: seq<Octet>)
    ensures GoodChars(Escape(s)) && Letters(Escape(s)) == s
    decreases |s|
  {
    if s != [] {
      EscapeUndone(s[1..]);
      var c := if s[0] == QUOTE || s[0] == BACKSLASH then Esc(s[0]) else Lit(s[0]);
      assert Escape(s) == [c] + Escape(s[1..]) && ([c] + Escape(s[1..]))[1..] == Escape(s[1..]);
    }
  }

  /** Unpacking never lengthens a text. */
  lemma {:induction false} MassagedShorter(s: seq<Octet>)
    ensures Massaged(s).Some? ==> |Massaged(s).value| <= |s|
    decreases |s|, 1
  {
    hide Naive, Blanks, Unpacked;
    var k := Naive(s, Token());
    if k.Some? {
      var p := ProbeAt(s, k.value + 6);
      if p.Other? {
        MassagedShorter(s[p.next..]);
      } else if p.Opens? {
        UnpackedShorter(s[p.quote + 1..]);
      }
    }
  }

  lemma {:induction false} UnpackedShorter(s: seq<Octet>)
    ensures Unpacked(s).Some? ==> |Unpacked(s).value| < |s|
    decreases |s|, 0
  {
    hide Massaged;
    if s != [] {
      if s[0] == QUOTE {
        MassagedShorter(s[1..]);
      } else if s[0] != BACKSLASH {
        UnpackedShorter(s[1..]);
      } else if |s| > 1 {
        UnpackedShorter(s[2..]);
      }
    }
  }
}
