/** What is read of a version string in either of its forms, part by part. */
module VersionText {
  import opened Options
  import opened Search
  import opened Decimals
  import opened Strings
  import opened Versions

  /** What stands between tag and distance: a dash, or the name of an SCM behind a full stop. */
  datatype Mark = Dashed | Named(scm: Scm)

  /** What may follow the distance: a separator, the letter of an SCM, its revision, and a flag. */
  datatype Tail = Tail(sep: char, letter: string, hex: string, flag: string)

  /** vTAG-DIST-SCM REVISION or vTAG.SCM DIST.REVISION, with `-dirty` or `.dirty` behind it. */
  datatype Text = Text(prefix: string, tag: string, mark: Mark, digits: string, tail: Option<Tail>) {
    predicate Valid() {
      && (prefix == "v" || prefix == "V" || (prefix == "" && tag != "" && IsDigit(tag[0])))
      && (mark.Named? ==> mark.scm == Git || mark.scm == Bzr || mark.scm == Hg)
      && digits != "" && AllDigits(digits)
      && (tail.Some? ==> ValidTail())
    }

    predicate ValidTail()
      requires tail.Some?
    {
      var t := tail.value;
      && (t.sep == '-' || (t.sep == '.' && mark.Named?))
      && (t.letter == "g" || t.letter == "h" || t.letter == if mark.Named? then "" else "b")
      && AllHex(t.hex) && (t.flag == "" || t.flag == "-dirty" || t.flag == ".dirty")
    }

    function PrintMark(): string {
      match mark
      case Dashed => "-"
      case Named(scm) => if scm == Git then ".git" else if scm == Bzr then ".bzr" else ".hg"
    }

    function PrintTail(): string {
      if tail.None? then "" else [tail.value.sep] + tail.value.letter + tail.value.hex + tail.value.flag
    }

    function Print(): string {
      prefix + (tag + (PrintMark() + (digits + PrintTail())))
    }

    /** The version meant: a letter overrules the name of an SCM, and seven digits of a revision are kept. */
    function Meaning(): Ver
      requires Valid()
    {
      var named := if mark.Named? then mark.scm else Tarball;
      if tail.None? then Ver(named, false, tag, Value(digits), 0)
      else
        var t := tail.value;
        var scm :=
          if t.letter == "g" then Git else if t.letter == "h" then Hg else if t.letter == "b" then Bzr else named;
        Ver(scm, t.flag != "", tag, Value(digits), Kept(t.hex))
    }

    /** Nothing in the tag is taken for its end. */
    predicate TagReads() {
      && Leftmost(tag, ".git", None)
      && (mark != Named(Git) ==> Leftmost(tag, ".bzr", None))
      && (mark != Named(Git) && mark != Named(Bzr) ==> Leftmost(tag, ".hg", None))
      && (mark == Dashed ==> '-' !in tag)
    }
  }

  /** The first seven digits of a revision, and how many these are. */
  function Kept(hex: string): nat
    requires AllHex(hex)
  {
    if |hex| <= 7 then 16 * HexNumber(hex) + |hex| else 16 * HexNumber(hex[..7]) + 7
  }

  predicate IsName(tok: string) {
    tok == ".git" || tok == ".bzr" || tok == ".hg"
  }

  // ---- where the tag ends

  /** A name is found in the tag, or else in what follows it; it never reaches from one into the other. */
  lemma InTagOrBehind(tag: string, rest: string, tok: string, k: nat)
    requires IsName(tok) && (rest == "" || rest[0] == '-' || rest[0] == '.')
    ensures Occurs(tag + rest, tok, k) <==> Occurs(tag, tok, k) || (k >= |tag| && Occurs(rest, tok, k - |tag|))
  {
    var w := tag + rest;
    var c := if |tag| < |w| then w[|tag|] else '-';
    assert c == '-' || c == '.';
    if Occurs(w, tok, k) {
      OccursAt(w, tok, k);
    }
    if k + |tok| <= |tag| {
      assert w[k..k + |tok|] == tag[k..k + |tok|];
    } else if k >= |tag| && k + |tok| <= |w| {
      assert w[k..k + |tok|] == rest[k - |tag|..k - |tag| + |tok|];
    }
  }

  /** Behind the distance no name of an SCM is found. */
  lemma NoneInTail(t: Text, tok: string, k: nat)
    requires t.Valid() && IsName(tok)
    ensures !Occurs(t.digits + t.PrintTail(), tok, k)
  {
    var w := t.digits + t.PrintTail();
    if Occurs(w, tok, k) {
      OccursAt(w, tok, k);
      assert w[k] == '.' && w[k + 1] == tok[1] && w[k + 2] == tok[2];
      assert k >= |t.digits| by {
        assert k < |t.digits| ==> IsDigit(t.digits[k]);
      }
      var u, j := t.PrintTail(), k - |t.digits|;
      assert u[j] == '.' && u[j + 1] == tok[1] && u[j + 2] == tok[2];
      TailDots(t, j);
      assert false;
    }
  }

  /** What follows a full stop in the tail is not what follows it in a name. */
  lemma TailDots(t: Text, j: nat)
    requires t.Valid() && t.tail.Some? && j + 2 < |t.PrintTail()| && t.PrintTail()[j] == '.'
    ensures var u := t.PrintTail();
      && !(u[j + 1] == 'g' && u[j + 2] == 'i') && !(u[j + 1] == 'b' && u[j + 2] == 'z')
      && !(u[j + 1] == 'h' && u[j + 2] == 'g')
  {
    var u, l, h, f := t.PrintTail(), t.tail.value.letter, t.tail.value.hex, t.tail.value.flag;
    var a := 1 + |l|;
    var b := a + |h|;
    assert forall i :: 1 <= i < a ==> u[i] == l[i - 1];
    assert forall i :: a <= i < b ==> u[i] == h[i - a] && IsHex(u[i]);
    assert forall i :: b <= i < |u| ==> u[i] == f[i - b];
    assert j == 0 || j == b;
    if j == b {
      assert u[j + 1] == f[1] == 'd';
    } else if l != "" {
      assert u[1] == l[0] && (a < b || u[2] == f[0]);
    } else if a == b {
      assert u[1] == f[0];
    }
  }

  lemma Behind(m: string, w: string, tok: string, k: nat)
    requires Occurs(m + w, tok, k)
    ensures k >= |m| ==> Occurs(w, tok, k - |m|)
  {
    if k >= |m| {
      assert (m + w)[k..k + |tok|] == w[k - |m|..k - |m| + |tok|];
    }
  }

  lemma MarkFound(t: Text, tok: string, k: nat)
    requires t.Valid() && IsName(tok)
    ensures Occurs(t.PrintMark() + (t.digits + t.PrintTail()), tok, k) <==> k == 0 && t.PrintMark() == tok
  {
    var m, w := t.PrintMark(), t.digits + t.PrintTail();
    var v := m + w;
    if Occurs(v, tok, k) {
      OccursAt(v, tok, k);
      Behind(m, w, tok, k);
      NoneInTail(t, tok, if k >= |m| then k - |m| else 0);
      assert v[k] == m[k] == '.';
      assert k == 0 && v[1] == tok[1] == m[1];
    }
    if m == tok {
      assert v[0..|tok|] == m;
    }
  }

  /** The leftmost name of one kind in the text. */
  lemma NameFound(t: Text, tok: string)
    requires t.Valid() && IsName(tok)
    ensures var w, n := t.tag + (t.PrintMark() + (t.digits + t.PrintTail())), |t.tag|;
      if !Leftmost(t.tag, tok, None) then Naive(w, tok).Some? && Naive(w, tok).value < n
      else Naive(w, tok) == if t.PrintMark() == tok then Some(n) else None
  {
    hide Naive, Text.PrintTail;
    var rest, n := t.PrintMark() + (t.digits + t.PrintTail()), |t.tag|;
    var w := t.tag + rest;
    NaiveSound(w, tok, 0);
    forall k: nat
      ensures Occurs(w, tok, k) <==> Occurs(t.tag, tok, k) || (k == n && t.PrintMark() == tok)
    {
      InTagOrBehind(t.tag, rest, tok, k);
      if k >= n {
        MarkFound(t, tok, k - n);
      }
    }
    if !Leftmost(t.tag, tok, None) {
      var j: nat :| j < n + 1 && Occurs(t.tag, tok, j);
      assert Occurs(w, tok, j);
    } else {
      assert forall k: nat | k < n :: !Occurs(t.tag, tok, k);
      assert t.PrintMark() == tok ==> Occurs(w, tok, n);
    }
  }

  lemma AlternativeIs(t: Text)
    requires t.Valid()
    ensures var alt, e := Alternative(t.Print(), |t.prefix|), |t.prefix| + |t.tag|;
      if t.TagReads() then
        && (t.mark.Named? ==> alt == Some((t.mark.scm, e, e + |t.PrintMark()|)))
        && (t.mark == Dashed ==> alt == None)
      else (alt.Some? && alt.value.1 < e) || (alt.None? && t.mark == Dashed && '-' in t.tag)
  {
    hide Naive, Text.PrintTail, Leftmost;
    var s, p := t.Print(), |t.prefix|;
    assert s[p..] == t.tag + (t.PrintMark() + (t.digits + t.PrintTail()));
    NameFound(t, ".git");
    NameFound(t, ".bzr");
    NameFound(t, ".hg");
    assert ".git"[1] == 'g' && ".bzr"[1] == 'b';
    assert t.PrintMark() == ".git" <==> t.mark == Named(Git);
    assert t.PrintMark() == ".bzr" <==> t.mark == Named(Bzr);
    assert t.PrintMark() == ".hg" <==> t.mark == Named(Hg);
  }

  // ---- what follows the tag

  lemma FlagIs(s: string, e: nat, flag: string)
    requires e <= |s| && s[e..] == flag && (flag == "" || flag == "-dirty" || flag == ".dirty")
    ensures Dirty(s, e) <==> flag != ""
    ensures e < |s| ==> !IsHex(s[e]) && At(s, e) != NUL
  {
    if flag != "" {
      assert s[e] == s[e..][0] && s[e + 1..e + 6] == s[e..][1..6] == "dirty";
    }
  }

  lemma RevisionIs(v: Ver, s: string, i: nat, hex: string, flag: string)
    requires i <= |s| && s[i..] == hex + flag && AllHex(hex) && !v.dirty
    requires flag == "" || flag == "-dirty" || flag == ".dirty"
    ensures ReadRevision(v, s, i) == v.(rvsn := Kept(hex), dirty := flag != "")
  {
    hide HexNumber, HexEnd, Dirty;
    var e := i + |hex|;
    Within(s, i, 0, |hex|);
    assert s[i..e] == hex && s[e..] == flag;
    FlagIs(s, e, flag);
    HexEndIs(s, i, e);
    assert hex != "" ==> s[i] == hex[0];
    NoHex();
    if |hex| <= 7 {
      assert s[i..i + |hex|] == hex;
    } else {
      assert s[i..i + 7] == hex[..7];
    }
  }

  lemma ScmIs(v: Ver, t: Text, s: string, i: nat)
    requires t.Valid() && t.tail.Some? && !v.dirty && v.scm == if t.mark.Named? then t.mark.scm else Tarball
    requires i <= |s| && s[i..] == t.tail.value.letter + t.tail.value.hex + t.tail.value.flag
    ensures var m := t.Meaning(); ReadScm(v, s, i) == v.(scm := m.scm, rvsn := m.rvsn, dirty := m.dirty)
  {
    hide ReadRevision, Kept;
    var l, h, f := t.tail.value.letter, t.tail.value.hex, t.tail.value.flag;
    var w := l + h + f;
    assert At(s, i) == if w == "" then NUL else w[0];
    if l == "" {
      assert w == h + f;
      RevisionIs(v, s, i, h, f);
      assert h != "" ==> IsHex(w[0]);
    } else {
      Within(s, i, 1, |w|);
      assert s[i + 1..] == h + f;
      RevisionIs(v.(scm := t.Meaning().scm), s, i + 1, h, f);
    }
  }

  /** A distance of more than 32 bits is cut. */
  function Cut(n: nat): nat {
    (if n >= ULONG then ULONG - 1 else n) % 0x1_0000_0000
  }

  lemma CutIs(n: nat)
    ensures Cut(n) == n <==> n < 0x1_0000_0000
  {
  }

  lemma DistanceIs(s: string, i: nat, digits: string)
    requires i + |digits| <= |s| && s[i..i + |digits|] == digits != "" && AllDigits(digits)
    requires i + |digits| < |s| ==> !IsDigit(s[i + |digits|])
    ensures StrToUl(s, i).0 % 0x1_0000_0000 == Cut(Value(digits)) && StrToUl(s, i).1 == i + |digits|
  {
    assert s[i] == digits[0] && IsDigit(digits[0]);
    DigitsEndIs(s, i, i + |digits|);
  }

  /** Without more a distance ends the string, else the SCM follows. */
  lemma DistCases(v: Ver, s: string, i: nat, n: nat, e: nat)
    requires i <= |s| && StrToUl(s, i).0 % 0x1_0000_0000 == n && StrToUl(s, i).1 == e
    ensures e == |s| ==> ReadDist(v, s, i) == (0, v.(dist := n))
    ensures e < |s| && (s[e] == '-' || (s[e] == '.' && Known(v.scm))) ==>
      ReadDist(v, s, i) == (0, ReadScm(v.(dist := n), s, e + 1))
  {
    hide ReadScm, StrToUl;
  }

  lemma Pieces(s: string, i: nat, d: string, u: string)
    requires i <= |s| && s[i..] == d + u
    ensures var e := i + |d|;
      e <= |s| && s[i..e] == d && s[e..] == u && (u != "" ==> s[e] == u[0] && s[e + 1..] == u[1..])
  {
    var e := i + |d|;
    assert s[i..e] == s[i..][..|d|] && s[e..] == s[i..][|d|..];
    assert u != "" ==> s[e..][0] == s[e] && s[e..][1..] == s[e + 1..];
  }

  lemma TailPieces(t: Text)
    ensures t.tail.None? ==> t.PrintTail() == ""
    ensures t.tail.Some? ==>
      var u, x := t.PrintTail(), t.tail.value; u != "" && u[0] == x.sep && u[1..] == x.letter + x.hex + x.flag
  {
  }

  lemma AfterTag(t: Text, v: Ver, s: string, i: nat)
    requires t.Valid() && !v.dirty && v.rvsn == 0 && v.scm == if t.mark.Named? then t.mark.scm else Tarball
    requires i <= |s| && s[i..] == t.digits + t.PrintTail()
    ensures ReadDist(v, s, i) == (0, t.Meaning().(tag := v.tag, dist := Cut(Value(t.digits))))
  {
    hide ReadScm, Kept, Value, StrToUl, Cut, ReadDist, AllHex, HexNumber, Text.PrintTail;
    var d, u := t.digits, t.PrintTail();
    var e := i + |d|;
    Pieces(s, i, d, u);
    TailPieces(t);
    DistanceIs(s, i, d);
    DistCases(v, s, i, Cut(Value(d)), e);
    if t.tail.Some? {
      ScmIs(v.(dist := Cut(Value(d))), t, s, e + 1);
    }
  }

  /** Reading as far as the tag. */
  lemma TagCases(s: string, p: nat)
    requires p <= |s| && s != "" && (if p == 0 then IsDigit(s[0]) else p == 1 && (s[0] == 'v' || s[0] == 'V'))
    ensures var alt, dash := Alternative(s, p), Dash(s, p);
      && (alt.Some? ==> Read(ZERO, s) == ReadDist(Ver(alt.value.0, false, Clip(s[p..alt.value.1]), 0, 0), s, alt.value.2))
      && (alt.None? && dash.Some? ==>
          Read(ZERO, s) == ReadDist(Ver(Tarball, false, Clip(s[p..dash.value]), 0, 0), s, dash.value + 1))
  {
    hide ReadDist, Alternative, Dash;
  }

  lemma TagPieces(t: Text)
    requires t.Valid()
    ensures var s, p, e := t.Print(), |t.prefix|, |t.prefix| + |t.tag|;
      && e + |t.PrintMark()| <= |s| && s != "" && s[p..e] == t.tag && s[e] == t.PrintMark()[0]
      && (if p == 0 then IsDigit(s[0]) else p == 1 && (s[0] == 'v' || s[0] == 'V'))
  {
    hide Text.PrintTail, IsDigit, AllDigits, AllHex;
    var s := t.Print();
    assert s[0] == (t.prefix + t.tag)[0];
  }

  lemma TagIs(t: Text)
    requires t.Valid()
    ensures var s, i := t.Print(), |t.prefix| + |t.tag| + |t.PrintMark()|;
      var v := Ver(if t.mark.Named? then t.mark.scm else Tarball, false, Clip(t.tag), 0, 0);
      if t.TagReads() then i <= |s| && Read(ZERO, s) == ReadDist(v, s, i)
      else |Read(ZERO, s).1.tag| < |t.tag|
  {
    hide ReadScm, StrToUl, Alternative, Dash, Leftmost, Text.PrintTail, Read, ReadDist, IsDigit, AllDigits, AllHex;
    hide Text.Print, Text.ValidTail;
    var s, p, e := t.Print(), |t.prefix|, |t.prefix| + |t.tag|;
    AlternativeIs(t);
    TagPieces(t);
    TagCases(s, p);
    if t.mark == Dashed {
      DashInTag(s, p, e, t.tag);
    }
    DistKeepsTag();
  }

  /** Up to a dash at `e` the first dash is there or in the tag. */
  lemma DashInTag(s: string, p: nat, e: nat, tag: string)
    requires p <= e < |s| && s[p..e] == tag && s[e] == '-'
    ensures if '-' in tag then Dash(s, p).Some? && Dash(s, p).value < e else Dash(s, p) == Some(e)
  {
    assert forall k :: p <= k < e ==> s[k] == tag[k - p];
    if '-' in tag {
      var k :| 0 <= k < |tag| && tag[k] == '-';
      assert s[p + k] == '-';
    } else {
      DashIs(s, p, e);
    }
  }

  lemma DistKeepsTag()
    ensures forall u: Ver, s: string, i: nat | i <= |s| :: ReadDist(u, s, i).1.tag == u.tag
  {
    hide ReadScm, StrToUl;
    TagKept();
  }

  /**
   * What a version string means is read from it exactly if nothing in its tag is taken for the end of
   * it, the tag has at most 16 characters, and the distance fits 32 bits.
   */
  lemma TextRead(t: Text)
    requires t.Valid()
    ensures Read(ZERO, t.Print()) == (0, t.Meaning()) <==>
      t.TagReads() && |t.tag| <= 16 && Value(t.digits) < 0x1_0000_0000
  {
    hide Read, ReadDist, Value, Kept, Leftmost, Cut;
    TagIs(t);
    CutIs(Value(t.digits));
    if t.TagReads() {
      var i := |t.prefix| + |t.tag| + |t.PrintMark()|;
      assert t.Print()[i..] == t.digits + t.PrintTail();
      AfterTag(t, Ver(if t.mark.Named? then t.mark.scm else Tarball, false, Clip(t.tag), 0, 0), t.Print(), i);
    }
  }

  lemma TailText(v: Ver)
    requires HasScm(v)
    ensures Scmed(v) == ['-'] + (match v.scm { case Git => "g" case Bzr => "b" case _ => "h" })
      + Printed(v.rvsn % 8, v.rvsn / 16) + if v.dirty then "-dirty" else ""
  {
    hide Printed;
  }

  lemma Nested(tag: string, dec: string, post: string)
    ensures "v" + tag + (['-'] + dec + post) == "v" + (tag + ("-" + (dec + post)))
  {
  }

  /** The text of a version with a distance: with the letter g, b or h, revision and flag if there is a revision. */
  function TextOf(v: Ver): Text {
    var letter := match v.scm { case Git => "g" case Bzr => "b" case _ => "h" };
    var tail := Tail('-', letter, Printed(v.rvsn % 8, v.rvsn / 16), if v.dirty then "-dirty" else "");
    var some := v.scm != Failure && v.scm != Tarball && v.rvsn != 0;
    Text("v", v.tag, Dashed, Decimal(v.dist), if some then Some(tail) else None)
  }

  /** What is written of a version is that text, or the tag alone. */
  lemma WrittenText(v: Ver)
    ensures Written(v) == if v.dist == 0 then "v" + v.tag else TextOf(v).Print()
  {
    hide Printed, Decimal, Rest, Scmed;
    NoRest(v);
    if v.dist != 0 {
      RestParts(v);
      var post := if HasScm(v) then Scmed(v) else "";
      if HasScm(v) {
        TailText(v);
      }
      assert TextOf(v).PrintTail() == post;
      Nested(v.tag, Decimal(v.dist), post);
    }
  }

  // ---- numbers, and strings that are refused

  predicate White(s: string) {
    forall i :: 0 <= i < |s| ==> s[i] in " \t\n\r" || s[i] as nat == 11 || s[i] as nat == 12
  }

  lemma {:induction false} SpaceIs(s: string, i: nat, j: nat)
    requires i <= j <= |s| && White(s[i..j]) && (j < |s| ==> !IsWhite(s[j]))
    ensures SkipSpace(s, i) == j
    decreases j - i
  {
    if i < j {
      assert s[i] == s[i..j][0] && s[i + 1..j] == s[i..j][1..];
      SpaceIs(s, i + 1, j);
    }
  }

  /** Where blanks, sign and digits stand. */
  lemma NumberParts(s: string, i: nat, blank: string, sign: string, digits: string)
    requires digits != "" && (sign == "" || sign == "+" || sign == "-")
    requires var e := i + |blank| + |sign| + |digits|; e <= |s| && s[i..e] == blank + sign + digits
    ensures var j, k, e := i + |blank|, i + |blank| + |sign|, i + |blank| + |sign| + |digits|;
      && s[i..j] == blank && s[k..e] == digits && s[k] == digits[0]
      && s[j] == if sign == "" then digits[0] else sign[0]
  {
    var j, k, e := i + |blank|, i + |blank| + |sign|, i + |blank| + |sign| + |digits|;
    var v := s[i..e];
    assert s[i..j] == v[..|blank|] == blank && s[k..e] == v[|blank| + |sign|..] == digits;
    assert s[j] == v[|blank|] && s[k] == v[|blank| + |sign|];
  }

  lemma NumberCases(s: string, i: nat, j: nat, k: nat, e: nat)
    requires i <= j <= k < e <= |s| && SkipSpace(s, i) == j && DigitsEnd(s, k) == e
    requires k == if s[j] == '-' || s[j] == '+' then j + 1 else j
    ensures AllDigits(s[k..e])
    ensures var n := Value(s[k..e]);
      StrToUl(s, i) == (if n >= ULONG then ULONG - 1 else if s[j] == '-' then (ULONG - n) % ULONG else n, e)
  {
    hide Value, AllDigits, SkipSpace, DigitsEnd;
  }

  lemma Negated(n: nat)
    requires n < ULONG
    ensures (ULONG - n) % ULONG == if n > 0 then 0x1_0000_0000_0000_0000 - n else 0
  {
  }

  /** White space, a sign and digits are read as a number of 64 bits: cut at its end, or negated. */
  lemma NumberRead(s: string, i: nat, blank: string, sign: string, digits: string)
    requires White(blank) && (sign == "" || sign == "+" || sign == "-") && AllDigits(digits) && digits != ""
    requires var e := i + |blank| + |sign| + |digits|;
      e <= |s| && s[i..e] == blank + sign + digits && (e < |s| ==> !IsDigit(s[e]))
    ensures var n, e := Value(digits), i + |blank| + |sign| + |digits|;
      StrToUl(s, i) == (
        if n > 0xffff_ffff_ffff_ffff then 0xffff_ffff_ffff_ffff
        else if sign == "-" && n > 0 then 0x1_0000_0000_0000_0000 - n else n, e)
  {
    hide Value, White, StrToUl, SkipSpace, DigitsEnd;
    var j, k, e := i + |blank|, i + |blank| + |sign|, i + |blank| + |sign| + |digits|;
    NumberParts(s, i, blank, sign, digits);
    assert IsDigit(digits[0]);
    SpaceIs(s, i, j);
    DigitsEndIs(s, k, e);
    NumberCases(s, i, j, k, e);
    if Value(digits) < ULONG {
      Negated(Value(digits));
    }
  }

  predicate Starts(s: string) {
    s != "" && (s[0] == 'v' || s[0] == 'V' || '0' <= s[0] <= '9')
  }

  /** A dash at `d`, the first one, has a number and then a full stop behind it. */
  predicate StopAfter(s: string, p: nat, d: int) {
    && p <= d < |s| && s[d] == '-' && (forall k :: p <= k < d ==> s[k] != '-')
    && At(s, StrToUl(s, d + 1).1) == '.'
  }

  predicate NoName(s: string) {
    Leftmost(s, ".git", None) && Leftmost(s, ".bzr", None) && Leftmost(s, ".hg", None)
  }

  lemma NoAlternative(s: string, p: nat)
    requires p <= |s|
    ensures Alternative(s, p).None? <==> NoName(s[p..])
    ensures Alternative(s, p).Some? ==> Known(Alternative(s, p).value.0)
  {
    hide Naive;
    NaiveSound(s[p..], ".git", 0);
    NaiveSound(s[p..], ".bzr", 0);
    NaiveSound(s[p..], ".hg", 0);
  }

  lemma FirstDash(s: string, p: nat)
    requires p <= |s|
    ensures (exists d :: StopAfter(s, p, d)) <==>
      Dash(s, p).Some? && At(s, StrToUl(s, Dash(s, p).value + 1).1) == '.'
  {
    hide StrToUl;
    if d :| StopAfter(s, p, d) {
      DashIs(s, p, d);
    }
    if Dash(s, p).Some? && At(s, StrToUl(s, Dash(s, p).value + 1).1) == '.' {
      assert StopAfter(s, p, Dash(s, p).value);
    }
  }

  lemma DistRefused(v: Ver, s: string, i: nat)
    requires i <= |s|
    ensures ReadDist(v, s, i).0 == if At(s, StrToUl(s, i).1) == '.' && !Known(v.scm) then -1 else 0
  {
    hide StrToUl, ReadScm;
  }

  /**
   * A string is refused exactly if it does not start with a v or a digit, or has no name of an SCM
   * and a full stop behind its distance.
   */
  lemma RefusedExact(s: string)
    requires NUL !in s
    ensures Read(ZERO, s).0 == if !Starts(s) then -1
      else
        var p := if '0' <= s[0] <= '9' then 0 else 1;
        if NoName(s[p..]) && exists d :: StopAfter(s, p, d) then -1 else 0
  {
    hide StrToUl, ReadDist, Alternative, NoName, Dash, StopAfter, Clip;
    if Starts(s) {
      var p := if '0' <= s[0] <= '9' then 0 else 1;
      NoAlternative(s, p);
      FirstDash(s, p);
      var alt, dash := Alternative(s, p), Dash(s, p);
      if alt.Some? {
        DistRefused(Ver(alt.value.0, false, Clip(s[p..alt.value.1]), 0, 0), s, alt.value.2);
      } else if dash.Some? {
        DistRefused(Ver(Tarball, false, Clip(s[p..dash.value]), 0, 0), s, dash.value + 1);
      }
    }
  }
}
