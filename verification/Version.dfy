/** Version strings vTAG-DIST-SCM REVISION[-dirty], build-aux/yuck-scmver.c. */
module Versions {
  import opened Options
  import opened Search
  import opened Decimals
  import opened Strings

  datatype Scm = Failure | Tarball | Git | Bzr | Hg

  predicate Known(scm: Scm) {
    scm != Failure && scm != Tarball
  }

  /** The revision: up to 28 bits of a hash and, in the low 4 bits, the number of its hex digits. */
  datatype Ver = Ver(scm: Scm, dirty: bool, tag: string, dist: nat, rvsn: nat)

  const ZERO: Ver := Ver(Tarball, false, "", 0, 0)
  const VTAG: nat := 16  // room for the tag, terminator included

  // ---- hexadecimals

  function HexVal(c: char): (v: nat)
    requires IsHex(c)
    ensures v < 16
  {
    if '0' <= c <= '9' then c as nat - 48
    else if 'a' <= c <= 'f' then c as nat - 87
    else c as nat - 55
  }

  function HexChar(v: nat): (c: char)
    requires v < 16
    ensures IsHex(c) && HexVal(c) == v
  {
    (if v < 10 then 48 + v else 87 + v) as char
  }

  predicate AllHex(s: string) {
    forall i :: 0 <= i < |s| ==> IsHex(s[i])
  }

  function HexNumber(s: string): nat
    requires AllHex(s)
  {
    if s == "" then 0 else 16 * HexNumber(s[..|s| - 1]) + HexVal(s[|s| - 1])
  }

  /** Where the hexadecimal digits from `i` on end. */
  function HexEnd(s: string, i: nat): (e: nat)
    requires i <= |s|
    ensures i <= e <= |s| && (e < |s| ==> !IsHex(s[e])) && forall k :: i <= k < e ==> IsHex(s[k])
    decreases |s| - i
  {
    if i < |s| && IsHex(s[i]) then HexEnd(s, i + 1) else i
  }

  const HEX_DIGITS: nat := 7  // what fits beside their number

  /** The revision at `i`: the first seven digits, and how many there are. */
  function Revision(s: string, i: nat): nat
    requires i <= |s|
  {
    var n := if HexEnd(s, i) - i < HEX_DIGITS then HexEnd(s, i) - i else HEX_DIGITS;
    16 * HexNumber(s[i..i + n]) + n
  }

  /** A number with at least `w` hexadecimal digits, but none for zero in no place. */
  function Hex(w: nat, v: nat): (s: string)
    ensures AllHex(s)
    decreases w, v
  {
    if w == 0 && v == 0 then ""
    else Hex(if w == 0 then 0 else w - 1, v / 16) + [HexChar(v % 16)]
  }

  /** The conversion %0*x, which prints a digit for zero. */
  function Printed(w: nat, v: nat): (s: string)
    ensures AllHex(s) && s != ""
  {
    Hex(if w == 0 then 1 else w, v)
  }

  function Pow16(n: nat): (p: nat)
    ensures p > 0
  {
    if n == 0 then 1 else 16 * Pow16(n - 1)
  }

  lemma {:induction false} HexRead(w: nat, v: nat)
    ensures HexNumber(Hex(w, v)) == v
    ensures |Hex(w, v)| >= w && (|Hex(w, v)| == w <==> v < Pow16(w))
    decreases w, v
  {
    if w > 0 || v > 0 {
      var u := if w == 0 then 0 else w - 1;
      HexRead(u, v / 16);
      assert Hex(w, v)[..|Hex(w, v)| - 1] == Hex(u, v / 16);
      if w > 0 {
        Scale(v, Pow16(u));
      }
    }
  }

  lemma Scale(v: nat, p: nat)
    ensures v / 16 < p <==> v < 16 * p
  {
  }

  lemma {:induction false} HexShort(w: nat, v: nat, m: nat)
    requires w <= m && v < Pow16(m)
    ensures |Hex(w, v)| <= m
    decreases m
  {
    if m > 0 && (w > 0 || v > 0) {
      Scale(v, Pow16(m - 1));
      HexShort(if w == 0 then 0 else w - 1, v / 16, m - 1);
    }
  }

  // ---- reading

  function Dash(s: string, i: nat): (r: Option<nat>)
    ensures r.Some? ==> i <= r.value < |s| && s[r.value] == '-' && forall k :: i <= k < r.value ==> s[k] != '-'
    ensures r.None? ==> forall k :: i <= k < |s| ==> s[k] != '-'
    decreases |s| - i
  {
    if i >= |s| then None else if s[i] == '-' then Some(i) else Dash(s, i + 1)
  }

  predicate IsWhite(c: char) {
    c == ' ' || 9 <= c as nat <= 13
  }

  function SkipSpace(s: string, i: nat): (r: nat)
    requires i <= |s|
    ensures i <= r <= |s|
    decreases |s| - i
  {
    if i < |s| && IsWhite(s[i]) then SkipSpace(s, i + 1) else i
  }

  function DigitsEnd(s: string, i: nat): (e: nat)
    requires i <= |s|
    ensures i <= e <= |s| && AllDigits(s[i..e]) && (e < |s| ==> !IsDigit(s[e]))
    decreases |s| - i
  {
    if i < |s| && IsDigit(s[i]) then
      var e := DigitsEnd(s, i + 1);
      assert s[i..e] == [s[i]] + s[i + 1..e];
      e
    else i
  }

  const ULONG: nat := 0x1_0000_0000_0000_0000

  /** `strtoul`: white space, a sign, digits; without digits nothing is read. */
  function StrToUl(s: string, i: nat): (r: (nat, nat))
    requires i <= |s|
    ensures i <= r.1 <= |s|
  {
    var j := SkipSpace(s, i);
    var k := if At(s, j) == '-' || At(s, j) == '+' then j + 1 else j;
    var e := DigitsEnd(s, k);
    if e == k then (0, i)
    else
      var n := Value(s[k..e]);
      (if n >= ULONG then ULONG - 1 else if At(s, j) == '-' then (ULONG - n) % ULONG else n, e)
  }

  /** The other form of the string, vTAG.gitDIST.REVISION, is known by one of these. */
  function Alternative(s: string, from: nat): (r: Option<(Scm, nat, nat)>)
    requires from <= |s|
    ensures r.Some? ==> from <= r.value.1 <= r.value.2 <= |s|
  {
    NaiveSound(s[from..], ".git", 0);
    NaiveSound(s[from..], ".bzr", 0);
    NaiveSound(s[from..], ".hg", 0);
    var g, b, h := Naive(s[from..], ".git"), Naive(s[from..], ".bzr"), Naive(s[from..], ".hg");
    if g.Some? then Some((Git, from + g.value, from + g.value + 4))
    else if b.Some? then Some((Bzr, from + b.value, from + b.value + 4))
    else if h.Some? then Some((Hg, from + h.value, from + h.value + 3))
    else None
  }

  function Clip(s: string): string {
    if |s| > VTAG then s[..VTAG - 1] else s
  }

  predicate Dirty(s: string, i: nat) {
    i < |s| && (s[i] == '-' || s[i] == '.') && i + 6 <= |s| && s[i + 1..i + 6] == "dirty"
  }

  /** From the letter of the SCM on, at `i`. */
  function ReadScm(v: Ver, s: string, i: nat): Ver
    requires i <= |s|
  {
    var c := At(s, i);
    if c == 'g' then ReadRevision(v.(scm := Git), s, i + 1)
    else if c == 'h' then ReadRevision(v.(scm := Hg), s, i + 1)
    else if c == 'b' && !Known(v.scm) then ReadRevision(v.(scm := Bzr), s, i + 1)
    else if Known(v.scm) then ReadRevision(v, s, i)
    else v
  }

  function ReadRevision(v: Ver, s: string, i: nat): Ver
    requires i <= |s|
  {
    var v' := v.(rvsn := if At(s, i) == NUL then 0 else Revision(s, i));
    if Dirty(s, if At(s, i) == NUL then i else HexEnd(s, i)) then v'.(dirty := true) else v'
  }

  /** From the distance on, at `i`. */
  function ReadDist(v: Ver, s: string, i: nat): (int, Ver)
    requires i <= |s|
  {
    var (n, eod) := StrToUl(s, i);
    var v' := v.(dist := n % 0x1_0000_0000);
    if At(s, eod) == '.' && !Known(v'.scm) then (-1, v')
    else if At(s, eod) == '.' || At(s, eod) == '-' then (0, ReadScm(v', s, eod + 1))
    else (0, v')
  }

  /** What reading the string makes of a version, and whether it is refused. */
  function Read(v: Ver, s: string): (int, Ver) {
    var c := At(s, 0);
    if c != 'v' && c != 'V' && !IsDigit(c) then (-1, v)
    else
      var t := if IsDigit(c) then 0 else 1;
      var dash, alt := Dash(s, t), Alternative(s, t);
      var eov := if alt.Some? then alt.value.1 else if dash.Some? then dash.value else |s|;
      var v1 := v.(scm := if alt.Some? then alt.value.0 else v.scm, tag := Clip(s[t..eov]));
      if alt.None? && dash.None? then (0, v1)
      else ReadDist(v1, s, if alt.Some? then alt.value.2 else dash.value + 1)
  }

  // ---- writing

  function Letter(scm: Scm): char
    requires Known(scm)
  {
    match scm
    case Git => 'g'
    case Bzr => 'b'
    case Hg => 'h'
  }

  predicate HasScm(v: Ver) {
    v.dist != 0 && v.rvsn != 0 && Known(v.scm)
  }

  function Scmed(v: Ver): string
    requires HasScm(v)
  {
    "-" + [Letter(v.scm)] + Printed(v.rvsn % 8, v.rvsn / 16) + if v.dirty then "-dirty" else ""
  }

  function Rest(v: Ver): string {
    if v.dist == 0 then ""
    else "-" + Decimal(v.dist) + if HasScm(v) then Scmed(v) else ""
  }

  function Written(v: Ver): string {
    "v" + v.tag + Rest(v)
  }

  /** What the fields of a version can hold. */
  predicate Storable(v: Ver) {
    |v.tag| < VTAG && NUL !in v.tag && v.dist < 0x1_0000_0000 && v.rvsn < 0x1_0000_0000
  }

  predicate PlainTag(tag: string) {
    && '-' !in tag && Leftmost(tag, ".git", None) && Leftmost(tag, ".bzr", None) && Leftmost(tag, ".hg", None)
  }

  /**
   * Versions that a reader gets back: the tag has nothing in it that ends a tag, what is not printed
   * is not there, and the revision's number of digits is right, from 1 to 7.
   */
  predicate Canonical(v: Ver) {
    && PlainTag(v.tag)
    && if HasScm(v) then 1 <= v.rvsn % 16 <= HEX_DIGITS && v.rvsn / 16 < Pow16(v.rvsn % 16)
       else v.scm == Tarball && v.rvsn == 0 && !v.dirty
  }

  // ---- reading what was written

  lemma RestIs(v: Ver)
    ensures v.dist == 0 ==> Rest(v) == ""
    ensures v.dist != 0 && !HasScm(v) ==> Rest(v) == "-" + Decimal(v.dist)
    ensures HasScm(v) ==> Rest(v) == "-" + Decimal(v.dist) + Scmed(v)
  {
  }

  /** The rest of a version string has no full stop and starts with a dash, if there is any. */
  lemma RestPlain(v: Ver)
    ensures '.' !in Rest(v) && (v.dist != 0 ==> Rest(v) != "" && Rest(v)[0] == '-')
  {
    assert forall i :: 0 <= i < |Decimal(v.dist)| ==> IsDigit(Decimal(v.dist)[i]);
    if HasScm(v) {
      var h := Printed(v.rvsn % 8, v.rvsn / 16);
      assert forall i :: 0 <= i < |h| ==> IsHex(h[i]);
      assert '.' !in Scmed(v);
    }
  }

  lemma OccursAt(w: string, tok: string, k: nat)
    requires Occurs(w, tok, k)
    ensures forall j :: k <= j < k + |tok| ==> w[j] == tok[j - k]
  {
    forall j | k <= j < k + |tok| ensures w[j] == tok[j - k] {
      assert w[k..k + |tok|][j - k] == w[j];
    }
  }

  /** A token that starts with a full stop and has no dash is found in the tag or not at all. */
  lemma TokenInTag(tag: string, rest: string, tok: string, at: Option<nat>)
    requires tok != "" && tok[0] == '.' && '-' !in tok && '.' !in rest && (rest != "" ==> rest[0] == '-')
    requires Leftmost(tag + rest, tok, at)
    ensures at.Some? ==> at.value < |tag| && Occurs(tag, tok, at.value)
    ensures at.None? ==> Leftmost(tag, tok, None)
  {
    var w := tag + rest;
    assert forall j :: |tag| <= j < |w| ==> w[j] == rest[j - |tag|] && w[j] != '.';
    forall k: nat | Occurs(w, tok, k) ensures k < |tag| && Occurs(tag, tok, k) {
      OccursAt(w, tok, k);
      assert w[k] == tok[0];
      assert |tag| < |w| ==> w[|tag|] == '-';
      assert w[k..k + |tok|] == tag[k..k + |tok|];
    }
    forall k: nat | Occurs(tag, tok, k) ensures Occurs(w, tok, k) {
      assert w[k..k + |tok|] == tag[k..k + |tok|];
    }
  }

  /** Looking for the other form of a version in what was written finds it in the tag or nowhere. */
  lemma AlternativeInTag(v: Ver)
    ensures var alt := Alternative(Written(v), 1);
      && (alt.Some? ==> alt.value.1 < 1 + |v.tag|)
      && (alt.None? <==> Leftmost(v.tag, ".git", None) && Leftmost(v.tag, ".bzr", None) && Leftmost(v.tag, ".hg", None))
  {
    hide Rest, Naive;
    var w, r := Written(v)[1..], Rest(v);
    assert w == v.tag + r;
    RestPlain(v);
    NoRest(v);
    forall tok | tok in [".git", ".bzr", ".hg"]
      ensures var at := Naive(w, tok);
        (at.Some? ==> at.value < |v.tag|) && (at.None? <==> Leftmost(v.tag, tok, None))
    {
      NaiveSound(w, tok, 0);
      TokenInTag(v.tag, r, tok, Naive(w, tok));
    }
  }

  lemma NoRest(v: Ver)
    ensures v.dist == 0 ==> Rest(v) == ""
  {
  }

  lemma DashIs(s: string, i: nat, j: nat)
    requires i <= j <= |s| && (j < |s| ==> s[j] == '-') && forall k :: i <= k < j ==> s[k] != '-'
    ensures Dash(s, i) == if j < |s| then Some(j) else None
  {
  }

  lemma {:induction false} DigitsEndIs(s: string, i: nat, e: nat)
    requires i <= e <= |s| && (e < |s| ==> !IsDigit(s[e])) && AllDigits(s[i..e])
    ensures DigitsEnd(s, i) == e
    decreases e - i
  {
    if i < e {
      assert s[i] == s[i..e][0] && s[i + 1..e] == s[i..e][1..];
      DigitsEndIs(s, i + 1, e);
    }
  }

  /** Reading back a number printed at `i`. */
  lemma DistRead(s: string, i: nat, n: nat)
    requires n < 0x1_0000_0000 && i + |Decimal(n)| <= |s| && s[i..i + |Decimal(n)|] == Decimal(n)
    requires i + |Decimal(n)| < |s| ==> !IsDigit(s[i + |Decimal(n)|])
    ensures StrToUl(s, i) == (n, i + |Decimal(n)|)
  {
    hide Decimal;
    DecimalValue(n);
    assert s[i] == Decimal(n)[0] && IsDigit(Decimal(n)[0]);
    DigitsEndIs(s, i, i + |Decimal(n)|);
  }

  lemma {:induction false} HexEndIs(s: string, i: nat, e: nat)
    requires i <= e <= |s| && (e < |s| ==> !IsHex(s[e])) && AllHex(s[i..e])
    ensures HexEnd(s, i) == e
    decreases e - i
  {
    if i < e {
      assert s[i] == s[i..e][0] && s[i + 1..e] == s[i..e][1..];
      HexEndIs(s, i + 1, e);
    }
  }

  /** The revision read back, whatever was to be printed. */
  function Normal(rvsn: nat): nat {
    16 * (rvsn / 16) + |Printed(rvsn % 8, rvsn / 16)|
  }

  lemma PrintedShort(rvsn: nat)
    requires rvsn < 0x1_0000_0000
    ensures var h := Printed(rvsn % 8, rvsn / 16);
      1 <= |h| <= HEX_DIGITS && HexNumber(h) == rvsn / 16
  {
    hide Hex;
    var w := if rvsn % 8 == 0 then 1 else rvsn % 8;
    assert Pow16(4) == 65536 && Pow16(7) == 4096 * Pow16(4);
    HexRead(w, rvsn / 16);
    HexShort(w, rvsn / 16, 7);
  }

  /** A revision comes back if its number of digits is from 1 to 7 and enough. */
  lemma NormalRevision(rvsn: nat)
    requires rvsn < 0x1_0000_0000
    ensures Normal(rvsn) == rvsn <==> 1 <= rvsn % 16 <= HEX_DIGITS && rvsn / 16 < Pow16(rvsn % 16)
  {
    hide Hex, Pow16, Printed;
    PrintedShort(rvsn);
    LowDigit(rvsn);
    var m := rvsn % 16;
    if 1 <= m <= HEX_DIGITS {
      PrintedIs(m, rvsn / 16);
    }
  }

  lemma LowDigit(n: nat)
    ensures n == 16 * (n / 16) + n % 16 && (n % 16 < 8 ==> n % 8 == n % 16)
  {
  }

  lemma PrintedIs(w: nat, v: nat)
    requires w > 0
    ensures |Printed(w, v)| == w <==> v < Pow16(w)
  {
    HexRead(w, v);
  }

  lemma Within(s: string, i: nat, a: nat, b: nat)
    requires i <= |s| && a <= b <= |s[i..]|
    ensures s[i..][a..b] == s[i + a..i + b] && s[i..][b..] == s[i + b..]
  {
  }

  lemma Parts(w: string, c: char, h: string, d: string)
    requires w == [c] + h + d
    ensures w[0] == c && w[1..1 + |h|] == h && w[1 + |h|..] == d
  {
  }

  /** From the letter of the SCM on, what was written is read. */
  lemma ScmRead(u: Ver, v: Ver, s: string, i: nat)
    requires HasScm(v) && Storable(v) && u.scm == Tarball && !u.dirty
    requires i <= |s| && s[i..] == Scmed(v)[1..]
    ensures ReadScm(u, s, i) == u.(scm := v.scm, rvsn := Normal(v.rvsn), dirty := v.dirty)
  {
    hide Printed, ReadRevision, Normal;
    var h, d := Printed(v.rvsn % 8, v.rvsn / 16), if v.dirty then "-dirty" else "";
    var w := s[i..];
    assert w == [Letter(v.scm)] + h + d;
    Parts(w, Letter(v.scm), h, d);
    Within(s, i, 1, 1 + |h|);
    assert s[i] == w[0];
    RevisionRead(u.(scm := v.scm), v, s, i + 1);
  }

  lemma RevisionRead(u: Ver, v: Ver, s: string, i: nat)
    requires v.rvsn < 0x1_0000_0000 && !u.dirty
    requires var h := Printed(v.rvsn % 8, v.rvsn / 16);
      i + |h| <= |s| && s[i..i + |h|] == h && s[i + |h|..] == if v.dirty then "-dirty" else ""
    ensures ReadRevision(u, s, i) == u.(rvsn := Normal(v.rvsn), dirty := v.dirty)
  {
    hide Printed, HexNumber, HexEnd, Dirty;
    var h := Printed(v.rvsn % 8, v.rvsn / 16);
    PrintedShort(v.rvsn);
    assert s[i] == s[i..i + |h|][0];
    DirtyIs(s, i + |h|, v.dirty);
    HexEndIs(s, i, i + |h|);
  }

  lemma DirtyIs(s: string, e: nat, dirty: bool)
    requires e <= |s| && s[e..] == if dirty then "-dirty" else ""
    ensures Dirty(s, e) == dirty && (e < |s| ==> !IsHex(s[e]))
  {
    if dirty {
      assert s[e] == s[e..][0] && s[e + 1..e + 6] == s[e..][1..6] == "dirty";
    }
  }

  /** The tag is read up to the dash. */
  lemma TagRead(v: Ver)
    requires Storable(v) && PlainTag(v.tag)
    ensures var u := Ver(Tarball, false, v.tag, 0, 0);
      if v.dist == 0 then Read(ZERO, Written(v)) == (0, u)
      else |v.tag| + 2 <= |Written(v)| && Read(ZERO, Written(v)) == ReadDist(u, Written(v), |v.tag| + 2)
  {
    hide Rest, ReadDist, Alternative, Dash, Leftmost;
    var s, t := Written(v), 1 + |v.tag|;
    AlternativeInTag(v);
    RestPlain(v);
    NoRest(v);
    assert s[1..t] == v.tag;
    assert forall k :: 1 <= k < t ==> s[k] == v.tag[k - 1];
    assert t < |s| ==> s[t] == Rest(v)[0];
    DashIs(s, 1, t);
  }

  lemma RestParts(v: Ver)
    requires v.dist != 0
    ensures Rest(v) == ['-'] + Decimal(v.dist) + if HasScm(v) then Scmed(v) else ""
  {
    hide Decimal, Scmed;
  }

  /** Where distance and SCM stand. */
  lemma RestPlaces(v: Ver, s: string, i: nat)
    requires v.dist != 0 && i < |s| && s[i..] == Rest(v)
    ensures var e := i + 1 + |Decimal(v.dist)|;
      && e <= |s| && s[i + 1..e] == Decimal(v.dist) && (!HasScm(v) ==> e == |s|)
      && (HasScm(v) ==> e < |s| && s[e] == '-' && s[e + 1..] == Scmed(v)[1..])
  {
    hide Decimal, Scmed, Rest, Known;
    var dec, post := Decimal(v.dist), if HasScm(v) then Scmed(v) else "";
    RestParts(v);
    Parts(Rest(v), '-', dec, post);
    Within(s, i, 1, 1 + |dec|);
    if HasScm(v) {
      ScmedDash(v);
      var e := i + 1 + |dec|;
      assert s[e..] == post && s[e] == s[e..][0] && s[e + 1..] == s[e..][1..];
    }
  }

  /** Distance and what follows it are read as they were written. */
  lemma RestRead(v: Ver, s: string, i: nat)
    requires Storable(v) && v.dist != 0 && i < |s| && s[i..] == Rest(v)
    ensures ReadDist(Ver(Tarball, false, v.tag, 0, 0), s, i + 1)
         == (0, if HasScm(v) then v.(rvsn := Normal(v.rvsn)) else Ver(Tarball, false, v.tag, v.dist, 0))
  {
    hide Decimal, Scmed, StrToUl, ReadScm, Normal, Rest, Storable;
    RestPlaces(v, s, i);
    StorableDist(v);
    DistRead(s, i + 1, v.dist);
    if HasScm(v) {
      ScmRead(Ver(Tarball, false, v.tag, v.dist, 0), v, s, i + 2 + |Decimal(v.dist)|);
    }
  }

  lemma StorableDist(v: Ver)
    requires Storable(v)
    ensures v.dist < 0x1_0000_0000
  {
  }

  /** What becomes of a version with a plain tag that is written and read. */
  lemma ReadWritten(v: Ver)
    requires Storable(v) && PlainTag(v.tag)
    ensures Read(ZERO, Written(v))
         == (0, if HasScm(v) then v.(rvsn := Normal(v.rvsn)) else Ver(Tarball, false, v.tag, v.dist, 0))
  {
    hide ReadDist, Normal, Read, PlainTag, Rest, Known, Storable;
    TagRead(v);
    assert Written(v)[1 + |v.tag|..] == Rest(v);
    if v.dist != 0 {
      RestRead(v, Written(v), 1 + |v.tag|);
    }
  }

  lemma ScmedDash(v: Ver)
    requires HasScm(v)
    ensures Scmed(v) != "" && Scmed(v)[0] == '-'
  {
  }

  /** A tag with something in it that ends a tag is read back shorter. */
  lemma ReadCut(v: Ver)
    requires Storable(v) && !PlainTag(v.tag)
    ensures |Read(ZERO, Written(v)).1.tag| < |v.tag|
  {
    hide Rest, StrToUl, ReadScm, Alternative, Leftmost, Dash;
    var s := Written(v);
    AlternativeInTag(v);
    if Alternative(s, 1).None? {
      var j :| 0 <= j < |v.tag| && v.tag[j] == '-';
      assert s[1 + j] == '-';
    }
    TagKept();
  }

  lemma TagKept()
    ensures forall u: Ver, s: string, i: nat | i <= |s| :: ReadScm(u, s, i).tag == u.tag
  {
  }

  /** Writing and reading give back a version if and only if it is canonical. */
  lemma RoundTrip(v: Ver)
    requires Storable(v)
    ensures Read(ZERO, Written(v)) == (0, v) <==> Canonical(v)
  {
    hide Read, Written, Normal;
    if PlainTag(v.tag) {
      ReadWritten(v);
      NormalRevision(v.rvsn);
    } else {
      ReadCut(v);
    }
  }

  // ---- the imperative forms

  /** The revision at `i` and where its digits end; it fits 32 bits. */
  method Hextou(s: string, i: nat) returns (res: nat, ep: nat)
    requires i <= |s|
    ensures res == (if At(s, i) == NUL then 0 else Revision(s, i)) && res < 0x1_0000_0000
    ensures ep == if At(s, i) == NUL then i else HexEnd(s, i)
  {
    if At(s, i) == NUL {
      return 0, i;
    }
    hide Pow16, HexNumber;
    res, ep := Digits(s, i);
    PowMore(ep - i);
    res := res * 16 + (ep - i);
    ghost var end := HexEnd(s, i);
    while ep < |s| && IsHex(s[ep])
      invariant ep <= |s| && HexEnd(s, ep) == end
    {
      ep := ep + 1;
    }
  }

  /** Up to seven digits from `i` on. */
  method Digits(s: string, i: nat) returns (res: nat, ep: nat)
    requires i <= |s|
    ensures i <= ep <= |s| && ep - i <= HEX_DIGITS && HexEnd(s, ep) == HexEnd(s, i)
    ensures ep - i == HEX_DIGITS || ep == HexEnd(s, i)
    ensures AllHex(s[i..ep]) && res == HexNumber(s[i..ep]) && res < Pow16(ep - i)
  {
    hide HexNumber, Pow16;
    res, ep := 0, i;
    ghost var end := HexEnd(s, i);
    NoHex();
    assert s[i..i] == "";
    while ep - i < HEX_DIGITS && ep < |s| && IsHex(s[ep])
      invariant i <= ep <= |s| && ep - i <= HEX_DIGITS && AllHex(s[i..ep]) && HexEnd(s, ep) == end
      invariant res == HexNumber(s[i..ep]) && res < Pow16(ep - i)
    {
      HexNext(s[i..ep], s[ep], ep - i);
      assert s[i..ep + 1] == s[i..ep] + [s[ep]];
      res, ep := res * 16 + HexVal(s[ep]), ep + 1;
    }
  }

  lemma NoHex()
    ensures HexNumber("") == 0 && Pow16(0) == 1
  {
  }

  lemma HexNext(s: string, c: char, n: nat)
    requires AllHex(s) && IsHex(c)
    ensures HexNumber(s + [c]) == 16 * HexNumber(s) + HexVal(c)
    ensures HexNumber(s) < Pow16(n) ==> HexNumber(s + [c]) < Pow16(n + 1)
  {
    assert (s + [c])[..|s|] == s;
  }

  lemma PowMore(n: nat)
    requires n <= HEX_DIGITS
    ensures 16 * Pow16(n) <= 0x1_0000_0000
  {
    assert Pow16(4) == 65536 && Pow16(7) == 4096 * Pow16(4);
    PowGrows(n, HEX_DIGITS);
  }

  lemma {:induction false} PowGrows(m: nat, n: nat)
    requires m <= n
    ensures Pow16(m) <= Pow16(n)
    decreases n - m
  {
    if m < n {
      PowGrows(m + 1, n);
    }
  }

  /**
   * `xstrlcpy` and `xstrlncpy` into the room of `dsz` characters at `at`. A string that fills the
   * room has its terminator put behind it.
   */
  method CopyString(buf: array<char>, at: nat, dsz: nat, src: string) returns (ssz: nat)
    requires at + dsz <= buf.Length && (|src| == dsz > 0 ==> at + dsz < buf.Length)
    modifies buf
    ensures ssz <= dsz
    ensures forall i :: at + dsz <= i < buf.Length ==>
      buf[i] == if i == at + dsz && |src| == dsz > 0 then NUL else old(buf[i])
    ensures |src| <= dsz ==> buf[..at + |src|] == old(buf[..at]) + src && (dsz > 0 ==> ssz == |src|)
  {
    if dsz == 0 {
      assert |src| <= dsz ==> src == "" && buf[..at] == buf[..at] + src;
      return 0;
    }
    ssz := if |src| > dsz then dsz - 1 else |src|;
    forall i | 0 <= i < ssz {
      buf[at + i] := src[i];
    }
    buf[at + ssz] := NUL;
  }

  /** `snprintf`: what does not fit is cut, but counted. */
  method Format(buf: array<char>, at: nat, room: nat, text: string) returns (n: nat)
    requires 0 < room && at + room <= buf.Length
    modifies buf
    ensures n == |text| && (|text| < room ==> buf[..at + |text|] == old(buf[..at]) + text)
    ensures forall i :: at + room <= i < buf.Length ==> buf[i] == old(buf[i])
  {
    var k := if |text| < room then |text| else room - 1;
    forall i | 0 <= i < k {
      buf[at + i] := text[i];
    }
    buf[at + k] := NUL;
    n := |text|;
  }

  lemma Joined(a: string, b: string, c: string, d: string)
    ensures a + b + c == a + (b + c) && a + b + c + d == a + (b + c + d)
  {
  }

  class Version {
    var scm: Scm
    var dirty: bool
    var vtag: string
    var dist: nat
    var rvsn: nat

    constructor ()
      ensures Value() == ZERO
    {
      scm, dirty, vtag, dist, rvsn := Tarball, false, "", 0, 0;
    }

    ghost function Value(): Ver
      reads this
    {
      Ver(scm, dirty, vtag, dist, rvsn)
    }

    /** Reads the NUL-terminated `s`, of which the terminator is not part. */
    method RdVersion(s: string) returns (r: int)
      modifies this
      ensures (r, Value()) == Read(old(Value()), s)
    {
      hide Naive, StrToUl, Dash, Alternative, ReadScm, Clip;
      var bp := 0;
      if At(s, 0) == 'v' || At(s, 0) == 'V' {
        bp := 1;
      } else if !IsDigit(At(s, 0)) {
        return -1;
      }
      var dash, alt := Dash(s, bp), Alternative(s, bp);
      var eov, at := |s|, None;
      if dash.Some? {
        eov, at := dash.value, Some(dash.value + 1);
      }
      if alt.Some? {
        scm, eov, at := alt.value.0, alt.value.1, Some(alt.value.2);
      }
      vtag := Clip(s[bp..eov]);
      if at.None? {
        return 0;
      }
      var n := StrToUl(s, at.value);
      dist := n.0 % 0x1_0000_0000;
      var eod := n.1;
      if At(s, eod) == '.' {
        if !Known(scm) {
          return -1;
        }
      } else if At(s, eod) != '-' {
        return 0;
      }
      RdScm(s, eod + 1);
      r := 0;
    }

    method RdScm(s: string, i: nat)
      requires i <= |s|
      modifies this
      ensures Value() == ReadScm(old(Value()), s, i)
    {
      hide ReadRevision;
      var bp := i + 1;
      if At(s, i) == 'g' {
        scm := Git;
      } else if At(s, i) == 'h' {
        scm := Hg;
      } else if At(s, i) == 'b' && !Known(scm) {
        scm := Bzr;
      } else if Known(scm) {
        bp := i;
      } else {
        return;
      }
      RdRevision(s, bp);
    }

    method RdRevision(s: string, i: nat)
      requires i <= |s|
      modifies this
      ensures Value() == ReadRevision(old(Value()), s, i)
    {
      hide HexEnd, Revision;
      var bp;
      rvsn, bp := Hextou(s, i);
      if bp < |s| && (s[bp] == '-' || s[bp] == '.') && bp + 6 <= |s| && s[bp + 1..bp + 6] == "dirty" {
        dirty := true;
      }
    }

    /**
     * Writes the version into `bsz` characters of the buffer. If the tag fits, the result is negative or
     * the length of the whole string, which is in the buffer if it fits; with 11 characters to spare
     * it is not refused. Behind the `bsz` characters a terminator is put exactly if the tag fills them.
     */
    method WrVersion(buf: array?<char>, bsz: nat) returns (r: int)
      requires buf != null ==> bsz <= buf.Length && (|vtag| + 1 == bsz > 1 ==> bsz < buf.Length)
      modifies buf
      ensures buf == null || bsz == 0 ==> r == -1
      ensures buf != null && |vtag| + 1 < bsz ==> r == -1 || r == |Written(Value())|
      ensures buf != null && |vtag| + 1 < bsz && 0 <= r < bsz ==> buf[..r] == Written(Value())
      ensures buf != null && |Written(Value())| + 11 < bsz ==> r >= 0
      ensures buf != null ==> forall i :: bsz <= i < buf.Length ==>
        buf[i] == if i == bsz && |vtag| + 1 == bsz > 1 then NUL else old(buf[i])
    {
      hide Rest;
      if buf == null || bsz == 0 {
        return -1;
      }
      buf[0] := 'v';
      assert buf[..1] == "v";
      var n := CopyString(buf, 1, bsz - 1, vtag);
      r := WrRest(buf, 1 + n, bsz);
    }

    /** Distance and what follows it, at `at`; at least 11 characters to spare avert a refusal. */
    method WrRest(buf: array<char>, at: nat, bsz: nat) returns (r: int)
      requires 0 < bsz <= buf.Length && at <= bsz
      modifies buf
      ensures r == -1 || r == at + |Rest(Value())|
      ensures 0 <= r < bsz ==> buf[..r] == old(buf[..at]) + Rest(Value())
      ensures at + |Rest(Value())| + 11 < bsz ==> r >= 0
      ensures forall i :: bsz <= i < buf.Length ==> buf[i] == old(buf[i])
    {
      hide Decimal, Scmed, Rest;
      RestIs(Value());
      ghost var pre, dec := buf[..at], Decimal(dist);
      if dist == 0 {
        assert pre + "" == pre;
        return at;
      } else if at + 1 >= bsz {
        return -1;
      }
      buf[at] := '-';
      assert buf[..at + 1] == pre + "-";
      var n := Format(buf, at + 1, bsz - at - 1, Decimal(dist));
      var bp := at + 1 + n;
      assert pre + "-" + dec == pre + ("-" + dec);
      if rvsn == 0 || !Known(scm) {
        return bp;
      }
      r := WrScm(buf, bp, bsz);
      assert pre + ("-" + dec) + Scmed(Value()) == pre + ("-" + dec + Scmed(Value()));
    }

    method WrScm(buf: array<char>, at: nat, bsz: nat) returns (r: int)
      requires 0 < bsz <= buf.Length && HasScm(Value())
      modifies buf
      ensures r == -1 || r == at + |Scmed(Value())|
      ensures 0 <= r < bsz ==> at < bsz && buf[..r] == old(buf[..at]) + Scmed(Value())
      ensures at + |Scmed(Value())| + 11 < bsz ==> r >= 0
      ensures forall i :: bsz <= i < buf.Length ==> buf[i] == old(buf[i])
    {
      hide Printed, Known, AllHex;
      if at + 10 >= bsz {
        return -1;
      }
      ghost var pre, first, hex := buf[..at], "-" + [Letter(scm)], Printed(rvsn % 8, rvsn / 16);
      buf[at], buf[at + 1] := '-', Letter(scm);
      assert buf[..at + 2] == pre + first;
      var n := Format(buf, at + 2, bsz - at - 2, Printed(rvsn % 8, rvsn / 16));
      var bp := at + 2 + n;
      Joined(pre, first, hex, "-dirty");
      if !dirty {
        assert Scmed(Value()) == first + hex;
        return bp;
      } else if bp + 6 >= bsz {
        return -1;
      }
      n := CopyString(buf, bp, bsz - bp, "-dirty");
      r := bp + n;
    }
  }
}
