/** FIX 4.4 messages, src/fix.c. */
module Fix {
  import opened Decimals
  import opened Strings

  const SOH: char := '\U{0001}'
  const WRAP: nat := 0x1_0000_0000  // of the sequence number

  // ---- the text of a message

  /** The last three decimal digits. */
  function Three(n: nat): (s: string)
    ensures |s| == 3 && AllDigits(s)
  {
    [Digit(n / 100 % 10), Digit(n / 10 % 10), Digit(n % 10)]
  }

  lemma ThreeValue(n: nat)
    ensures Value(Three(n)) == n % 1000 && (Value(Three(n)) == n <==> n < 1000)
  {
    var a, b, c := Digit(n / 100 % 10), Digit(n / 10 % 10), Digit(n % 10);
    assert [a, b, c][..2] == [a, b] && [a, b][..1] == [a] && [a][..0] == "";
    assert Value([a]) == n / 100 % 10;
    assert Value([a, b]) == 10 * Value([a]) + n / 10 % 10;
    LastThree(n);
  }

  lemma LastThree(n: nat)
    ensures 100 * (n / 100 % 10) + 10 * (n / 10 % 10) + n % 10 == n % 1000
  {
    var t, h := n / 10, n / 100;
    TenTimes(n);
    TenTimes(t);
    TenTimes(h);
    Hundreds(n);
    Remainder(n, h / 10, 100 * (h % 10) + 10 * (t % 10) + n % 10);
  }

  lemma TenTimes(n: nat)
    ensures n == 10 * (n / 10) + n % 10
  {
  }

  lemma Hundreds(n: nat)
    ensures n / 100 == n / 10 / 10
  {
  }

  lemma Remainder(n: nat, q: nat, r: nat)
    requires n == 1000 * q + r && r < 1000
    ensures n % 1000 == r
  {
  }

  /** The sum of the characters as bytes. */
  function Sum(s: string): nat {
    if s == "" then 0 else Sum(s[..|s| - 1]) + s[|s| - 1] as nat
  }

  function Swapped(s: string, a: char, b: char): (r: string)
    ensures |r| == |s|
  {
    seq(|s|, i requires 0 <= i < |s| => if s[i] == a then b else s[i])
  }

  /** The digits of a sequence number; none once it has wrapped to zero. */
  function Numeral(n: nat): string {
    if n == 0 then "" else Decimal(n)
  }

  datatype Message = Message(typ: char, msg: string)

  /** What identifies the two sides. */
  datatype Ids = Ids(sender: string, target: string)

  function Field(tag: string, s: string): string {
    tag + s + [SOH]
  }

  /** The fields between the type and the user's. */
  function Standard(n: nat, ids: Ids, time: string): string {
    Field("34=", Numeral(n)) + (if ids.sender == "" then "" else Field("49=", ids.sender))
    + Field("52=", time) + Field("56=", ids.target)
  }

  /** The fields that BodyLength counts; in the user's, NUL stands for SOH. */
  function Body(n: nat, ids: Ids, time: string, m: Message): string {
    Field("35=", [m.typ]) + Standard(n, ids, time) + Swapped(m.msg, NUL, SOH)
  }

  const PREFIX: string := "8=FIX.4.4" + [SOH] + "9="

  function Head(length: string): string {
    PREFIX + length + [SOH]
  }

  function Trailer(ck: nat): string {
    Field("10=", Three(ck))
  }

  /** All before the trailer. */
  function Covered(n: nat, ids: Ids, time: string, m: Message): string {
    var b := Body(n, ids, time, m);
    Head(Three(|b|)) + b
  }

  function Checksum(n: nat, ids: Ids, time: string, m: Message): nat {
    Sum(Covered(n, ids, time, m)) % 256
  }

  function Rendered(n: nat, ids: Ids, time: string, m: Message): string {
    Covered(n, ids, time, m) + Trailer(Checksum(n, ids, time, m))
  }

  /** The framing of FIX: BodyLength counts the body, CheckSum is the sum of all before it. */
  ghost predicate Framed(text: string) {
    exists length: string, body: string, ck: string ::
      && AllDigits(length) && AllDigits(ck) && |ck| == 3
      && text == Head(length) + body + Field("10=", ck)
      && Value(length) == |body| && Value(ck) == Sum(Head(length) + body) % 256
  }

  /** The parts of a rendered message: CheckSum is right, and BodyLength exactly below 1000. */
  lemma RenderedFrame(n: nat, ids: Ids, time: string, m: Message)
    ensures var b, ck := Body(n, ids, time, m), Checksum(n, ids, time, m);
      && Rendered(n, ids, time, m) == Head(Three(|b|)) + b + Field("10=", Three(ck)) && Value(Three(ck)) == ck
      && (Value(Three(|b|)) == |b| <==> |b| < 1000)
      && (|b| < 1000 ==> Framed(Rendered(n, ids, time, m)))
  {
    hide Three, Body, Sum, Head, Value;
    ThreeValue(|Body(n, ids, time, m)|);
    ThreeValue(Checksum(n, ids, time, m));
  }

  /** A message in full: version, length of the body, body and checksum. */
  lemma MessageText(n: nat, ids: Ids, time: string, m: Message)
    ensures Rendered(n, ids, time, m) ==
      "8=FIX.4.4\U{0001}9=" + Three(|Body(n, ids, time, m)|) + "\U{0001}" + Body(n, ids, time, m)
      + ("10=" + Three(Checksum(n, ids, time, m)) + "\U{0001}")
  {
    hide Three, Body, Checksum;
  }

  /** The body in full: type, number, sender if there is one, time, target, and the user's fields. */
  lemma BodyText(n: nat, ids: Ids, time: string, m: Message)
    ensures Body(n, ids, time, m) ==
      "35=" + [m.typ] + "\U{0001}" + (
        "34=" + Numeral(n) + "\U{0001}" + (if ids.sender == "" then "" else "49=" + ids.sender + "\U{0001}")
        + ("52=" + time + "\U{0001}") + ("56=" + ids.target + "\U{0001}"))
      + Swapped(m.msg, '\0', '\U{0001}')
  {
    hide Numeral, Swapped;
  }

  // ---- the digits, written from the last

  function Backwards(n: nat): string {
    if n == 0 then "" else [Digit(n % 10)] + Backwards(n / 10)
  }

  lemma {:induction false} BackwardsNumeral(n: nat)
    ensures |Backwards(n)| == |Numeral(n)|
    ensures forall i :: 0 <= i < |Numeral(n)| ==> Numeral(n)[i] == Backwards(n)[|Numeral(n)| - 1 - i]
  {
    if n >= 10 {
      BackwardsNumeral(n / 10);
    } else if n > 0 {
      assert Backwards(n / 10) == "";
    }
  }

  method Put(buf: array<char>, at: nat, text: string) returns (len: nat)
    requires at + |text| <= buf.Length
    modifies buf
    ensures len == at + |text| && buf[..len] == old(buf[..at]) + text
  {
    forall i | 0 <= i < |text| {
      buf[at + i] := text[i];
    }
    len := at + |text|;
  }

  /** Digits of `n` from the last to the first, and then turned around. */
  method PutNumeral(buf: array<char>, at: nat, n: nat) returns (len: nat)
    requires at + |Numeral(n)| <= buf.Length
    modifies buf
    ensures len == at + |Numeral(n)| && buf[..len] == old(buf[..at]) + Numeral(n)
  {
    hide Numeral, Decimal;
    BackwardsNumeral(n);
    len := PutBackwards(buf, at, n);
    ghost var w := buf[at..len];
    TurnAround(buf, at, len);
    assert buf[at..len] == Numeral(n);
    assert buf[..len] == buf[..at] + buf[at..len];
  }

  method TurnAround(buf: array<char>, at: nat, len: nat)
    requires at <= len <= buf.Length
    modifies buf
    ensures forall j :: at <= j < len ==> buf[j] == old(buf[at..len])[len - 1 - j]
    ensures buf[..at] == old(buf[..at])
  {
    ghost var w := buf[at..len];
    var i, h := 0, (len - at) / 2;
    while i < h
      invariant 0 <= i <= h && buf[..at] == old(buf[..at])
      invariant forall j :: at <= j < at + i ==> buf[j] == w[len - 1 - j]
      invariant forall j :: len - i <= j < len ==> buf[j] == w[len - 1 - j]
      invariant forall j :: at + i <= j < len - i ==> buf[j] == w[j - at]
    {
      buf[at + i], buf[len - (i + 1)] := buf[len - (i + 1)], buf[at + i];
      i := i + 1;
    }
  }

  method PutBackwards(buf: array<char>, at: nat, n: nat) returns (len: nat)
    requires at + |Backwards(n)| <= buf.Length
    modifies buf
    ensures len == at + |Backwards(n)| && buf[at..len] == Backwards(n) && buf[..at] == old(buf[..at])
  {
    len := at;
    var s := n;
    while s != 0
      invariant at <= len && len + |Backwards(s)| == at + |Backwards(n)| && buf[..at] == old(buf[..at])
      invariant buf[at..len] + Backwards(s) == Backwards(n)
      decreases s
    {
      ghost var w := buf[at..len];
      buf[len] := Digit(s % 10);
      assert buf[at..len + 1] == w + [Digit(s % 10)];
      assert w + ([Digit(s % 10)] + Backwards(s / 10)) == w + [Digit(s % 10)] + Backwards(s / 10);
      len, s := len + 1, s / 10;
    }
  }

  /** The checksum of the first `len` characters. */
  method ChkSum(buf: array<char>, len: nat) returns (ck: nat)
    requires len <= buf.Length
    ensures ck == Sum(buf[..len]) % 256
  {
    var res, i := 0, 0;
    while i < len
      invariant i <= len && res == Sum(buf[..i])
    {
      assert buf[..i + 1][..i] == buf[..i];
      res, i := res + buf[i] as nat, i + 1;
    }
    ck := res % 256;
  }

  class Session {
    var n: nat  // the next sequence number
    var ids: Ids

    ghost var sent: nat  // messages since the last reset

    /** The message after `sent` others carries the number sent + 1, modulo 2^32. */
    ghost predicate Valid()
      reads this
    {
      n == (sent + 1) % WRAP
    }

    constructor (ids: Ids)
      ensures Valid() && sent == 0 && this.ids == ids
    {
      n, this.ids, sent := 1, ids, 0;
    }

    method Reset()
      modifies this`n, this`sent
      ensures Valid() && sent == 0
    {
      n, sent := 1, 0;
    }

    /**
     * Renders the message into a buffer with room for it and two more characters; `time` is the time
     * stamp. Length and checksum are put in afterwards, and the number of the message is counted up.
     */
    method Render(buf: array<char>, m: Message, time: string) returns (len: nat)
      requires Valid() && |Rendered(n, ids, time, m)| + 2 <= buf.Length
      modifies this`n, this`sent, buf
      ensures Valid() && sent == old(sent) + 1
      ensures len + 2 <= buf.Length && buf[len] == '\n' && buf[len + 1] == NUL
      ensures buf[..len] == Rendered((old(sent) + 1) % WRAP, ids, time, m)
    {
      hide Three, Sum, Numeral, Decimal, Swapped;
      ghost var k := n;
      ghost var body := Body(n, ids, time, m);
      HeadAt("XXX");
      HeadAt(Three(|body|));
      len := RenderBody(buf, m, time);
      PutLength(buf, len - 16, body);
      var ck := ChkSum(buf, len);
      len := Put(buf, len, Trailer(ck));
      buf[len], buf[len + 1] := '\n', NUL;
      n, sent := (n + 1) % WRAP, sent + 1;
      assert buf[..len] == Rendered(k, ids, time, m);
    }

    /** Header, with the length still to come, and body. */
    method RenderBody(buf: array<char>, m: Message, time: string) returns (len: nat)
      requires 16 + |Body(n, ids, time, m)| <= buf.Length
      modifies buf
      ensures var b := Body(n, ids, time, m);
        len == 16 + |b| && buf[..len] == Head("XXX") + b
    {
      hide Numeral, Swapped, Head, Body;
      var c := if ids.sender == "" then "" else "49=" + ids.sender + [SOH];
      var d, e := "52=" + time + [SOH] + "56=" + ids.target + [SOH], Swapped(m.msg, NUL, SOH);
      BodyParts(n, ids, time, m);
      HeadAt("XXX");
      assert buf[..0] == "";
      len := Put(buf, 0, Head("XXX"));
      assert buf[..len] == Head("XXX");
      len := RenderFirst(buf, len, "35=" + [m.typ] + [SOH] + "34=", n);
      len := RenderRest(buf, len, c, d, e);
      Regrouped(Head("XXX"), "35=" + [m.typ] + [SOH] + "34=" + Numeral(n) + [SOH], c, d, e);
    }
  }

  lemma Regrouped(a: string, b: string, c: string, d: string, e: string)
    ensures a + b + (c + d + e) == a + (b + c + d + e)
  {
  }

  method RenderFirst(buf: array<char>, at: nat, a: string, n: nat) returns (len: nat)
    requires at + |a| + |Numeral(n)| + 1 <= buf.Length
    modifies buf
    ensures len == at + |a| + |Numeral(n)| + 1 && buf[..len] == old(buf[..at]) + (a + Numeral(n) + [SOH])
  {
    hide Numeral;
    len := Put(buf, at, a);
    len := PutNumeral(buf, len, n);
    len := Put(buf, len, [SOH]);
    ghost var pre := old(buf[..at]);
    assert pre + a + Numeral(n) + [SOH] == pre + (a + Numeral(n) + [SOH]);
  }

  method RenderRest(buf: array<char>, at: nat, c: string, d: string, e: string) returns (len: nat)
    requires at + |c| + |d| + |e| <= buf.Length
    modifies buf
    ensures len == at + |c| + |d| + |e| && buf[..len] == old(buf[..at]) + (c + d + e)
  {
    len := Put(buf, at, c);
    len := Put(buf, len, d);
    len := Put(buf, len, e);
    ghost var pre := old(buf[..at]);
    assert pre + c + d + e == pre + (c + d + e);
  }

  lemma HeadAt(length: string)
    requires |length| == 3
    ensures |Head(length)| == |Head("XXX")| == 16 && Head(length)[12..15] == length
    ensures forall i :: 0 <= i < 16 && !(12 <= i < 15) ==> Head(length)[i] == Head("XXX")[i]
  {
  }

  /** The body the way it is written. */
  lemma BodyParts(n: nat, ids: Ids, time: string, m: Message)
    ensures Body(n, ids, time, m)
         == ("35=" + [m.typ] + [SOH] + "34=") + Numeral(n) + [SOH]
          + (if ids.sender == "" then "" else "49=" + ids.sender + [SOH])
          + ("52=" + time + [SOH] + "56=" + ids.target + [SOH]) + Swapped(m.msg, NUL, SOH)
  {
    hide Numeral, Swapped;
  }

  /** Puts the length of the body in its place, digit by digit from the last. */
  method PutLength(buf: array<char>, size: nat, ghost body: string)
    requires size == |body| && 16 + size <= buf.Length && buf[..16 + size] == Head("XXX") + body
    modifies buf
    ensures buf[..16 + size] == Head(Three(size)) + body
    ensures forall i :: 16 + size <= i < buf.Length ==> buf[i] == old(buf[i])
  {
    hide Head, Digit, DigitValue, AllDigits;
    HeadAt(Three(size));
    var msz := size;
    buf[14] := Digit(msz % 10);
    msz := msz / 10;
    buf[13] := Digit(msz % 10);
    msz := msz / 10;
    buf[12] := Digit(msz % 10);
    ghost var h := Head(Three(size));
    assert forall i :: 12 <= i < 15 ==> h[i] == h[12..15][i - 12];
    assert buf[12..15] == Three(size);
    assert forall i :: 0 <= i < 16 ==> buf[i] == h[i];
    assert buf[..16 + size] == h + body;
  }

  // ---- parsing

  /** Type of a message, and where its fields start and how long they are; or nothing. */
  datatype Parsed = Parsed(typ: char, at: nat, len: nat) | Buggered

  /** Behind the first separator from position 13 on, if it is among five characters. */
  function Scan(s: string): (j: nat)
    ensures j == 0 || (14 <= j <= 18 && j <= |s| && s[j - 1] == SOH)
  {
    if At(s, 13) == SOH then 14 else if At(s, 14) == SOH then 15 else if At(s, 15) == SOH then 16
    else if At(s, 16) == SOH then 17 else if At(s, 17) == SOH then 18 else 0
  }

  /** What is looked at of the buffer `s` is there; it need not be among the `bsz` characters given. */
  predicate InReach(s: string, bsz: nat) {
    && bsz <= |s|
    && (bsz >= 12 && s[..12] == PREFIX ==>
          var j := Scan(s);
          if j == 0 then |s| >= 18
          else
            j < |s| && (s[j] == '3' ==> j + 1 < |s| && (s[j + 1] == '5' ==>
              j + 2 < |s| && (s[j + 2] == '=' ==> j + 4 < |s|))))
  }

  const LENGTHS: nat := 0x100_0000_0000_0000  // the length of a message has 56 bits

  /** What is made of the `bsz` characters at the front of `s`. */
  function Parse(s: string, bsz: nat): Parsed
    requires InReach(s, bsz)
  {
    var j := Scan(s);
    if bsz < 12 || s[..12] != PREFIX then Buggered
    else if j == 0 || s[j] != '3' || s[j + 1] != '5' || s[j + 2] != '=' then Buggered
    else
      var k := if s[j + 4] == SOH then j + 4 else j + 5;
      Parsed(s[j + 3], k, (bsz - k) % LENGTHS)
  }

  /** Parses in place: the separators become NUL. */
  method ParseMessage(buf: array<char>, bsz: nat) returns (r: Parsed)
    requires InReach(buf[..], bsz)
    modifies buf
    ensures r == Parse(old(buf[..]), bsz)
    ensures r.Buggered? ==> buf[..] == old(buf[..])
    ensures r.Parsed? ==> buf[..bsz] == Swapped(old(buf[..bsz]), SOH, NUL) && buf[bsz..] == old(buf[bsz..])
  {
    ghost var s := buf[..];
    if bsz < 12 || buf[..12] != PREFIX {
      return Buggered;
    }
    var j, n := 13, 0;
    while n < 5 && buf[j] != SOH
      invariant n <= 5 && j == 13 + n <= |s| && forall i :: 13 <= i < j ==> s[i] != SOH
    {
      j, n := j + 1, n + 1;
    }
    if n == 5 {
      return Buggered;
    }
    j := j + 1;
    assert j == Scan(s);
    if buf[j] != '3' || buf[j + 1] != '5' || buf[j + 2] != '=' {
      return Buggered;
    }
    var typ := buf[j + 3];
    j := if buf[j + 4] == SOH then j + 4 else j + 5;
    r := Parsed(typ, j, (bsz - j) % LENGTHS);
    var i := 0;
    while i < bsz
      invariant i <= bsz && forall k :: i <= k < buf.Length ==> buf[k] == s[k]
      invariant forall k :: 0 <= k < i ==> buf[k] == if s[k] == SOH then NUL else s[k]
    {
      buf[i] := if buf[i] != SOH then buf[i] else NUL;
      i := i + 1;
    }
  }

  /** The front of `s` is the head of a message, with BodyLength `length`, up to the tag of its type. */
  predicate HeadShown(s: string, length: string) {
    && 1 <= |length| <= 5 && SOH !in length[1..]
    && 16 + |length| <= |s| && s[..16 + |length|] == PREFIX + length + [SOH] + "35="
  }

  lemma ScanShown(s: string, length: string)
    requires HeadShown(s, length)
    ensures Scan(s) == 13 + |length| && s[..12] == PREFIX
    ensures var j := Scan(s); s[j] == '3' && s[j + 1] == '5' && s[j + 2] == '='
  {
    var h, n := PREFIX + length + [SOH] + "35=", |length|;
    assert forall i :: 0 <= i < 16 + n ==> s[i] == h[i];
    assert s[12 + n] == SOH;
    assert forall i :: 13 <= i < 12 + n ==> s[i] == length[1..][i - 13];
    assert s[..12] == h[..12] == PREFIX;
  }

  lemma HeadParts(s: string, j: nat)
    requires 14 <= j <= 18 && j + 3 <= |s| && s[..12] == PREFIX && s[j - 1] == SOH
    requires s[j] == '3' && s[j + 1] == '5' && s[j + 2] == '='
    ensures s[..j + 3] == PREFIX + s[12..j - 1] + [SOH] + "35="
  {
    assert s[..j - 1] == s[..12] + s[12..j - 1] && s[j - 1..j + 3] == [SOH] + "35=";
    assert s[..j + 3] == s[..j - 1] + s[j - 1..j + 3];
  }

  /** What is made of a message with such a head: the type is one character, and a second one is skipped. */
  lemma ParseHead(s: string, bsz: nat, length: string)
    requires InReach(s, bsz) && bsz >= 12 && HeadShown(s, length)
    ensures var t := 16 + |length|;
      t + 1 < |s| && (var k := if s[t + 1] == SOH then t + 1 else t + 2;
                      Parse(s, bsz) == Parsed(s[t], k, (bsz - k) % LENGTHS))
  {
    hide Scan, HeadShown;
    ScanShown(s, length);
  }

  /**
   * A message is parsed exactly if it starts with the version, a BodyLength of one to five characters,
   * of which the first is not looked at, and the tag of the type.
   */
  lemma ParseExact(s: string, bsz: nat)
    requires InReach(s, bsz)
    ensures Parse(s, bsz).Parsed? <==> bsz >= 12 && exists length :: HeadShown(s, length)
  {
    if Parse(s, bsz).Parsed? {
      var j := Scan(s);
      HeadParts(s, j);
      assert forall i :: 13 <= i < j - 1 ==> s[i] != SOH;
      assert s[12..j - 1][1..] == s[13..j - 1];
      assert HeadShown(s, s[12..j - 1]);
    }
    if bsz >= 12 && exists length :: HeadShown(s, length) {
      var length :| HeadShown(s, length);
      ParseHead(s, bsz, length);
    }
  }

  /** NUL for SOH and back is the identity on text without SOH, and on no other. */
  lemma SwappedBack(s: string)
    ensures Swapped(Swapped(s, NUL, SOH), SOH, NUL) == Swapped(s, SOH, NUL)
    ensures Swapped(s, SOH, NUL) == s <==> SOH !in s
  {
    if SOH in s {
      var i :| 0 <= i < |s| && s[i] == SOH;
      assert Swapped(s, SOH, NUL)[i] != s[i];
    }
  }

  lemma SwappedConcat(s: string, t: string, a: char, b: char)
    ensures Swapped(s + t, a, b) == Swapped(s, a, b) + Swapped(t, a, b)
  {
  }

  /** A rendered message, cut behind its type. */
  lemma RenderedCut(n: nat, ids: Ids, time: string, m: Message) returns (pre: string)
    ensures |pre| == 20 && Rendered(n, ids, time, m)
         == pre + ([SOH] + Standard(n, ids, time) + Swapped(m.msg, NUL, SOH) + Trailer(Checksum(n, ids, time, m)))
    ensures pre[..12] == PREFIX && pre[16..19] == "35=" && pre[19] == m.typ
    ensures pre[15] == SOH && pre[13] != SOH && pre[14] != SOH
  {
    hide Three, Checksum, Standard, Swapped, Trailer;
    var b := Body(n, ids, time, m);
    var len := Three(|b|);
    pre := Head(len) + ("35=" + [m.typ]);
    var rest := Standard(n, ids, time) + Swapped(m.msg, NUL, SOH);
    assert b == "35=" + [m.typ] + [SOH] + rest;
    assert Head(len) + ("35=" + [m.typ] + [SOH] + rest) == pre + ([SOH] + rest);
    assert IsDigit(len[1]) && IsDigit(len[2]);
  }

  /**
   * Parsing a rendered message gives back its type and its fields, with NUL for SOH, and among them
   * those of the user, as they were if and only if they hold no SOH; whatever stands behind the message.
   */
  lemma ParseRendered(n: nat, ids: Ids, time: string, m: Message, more: string)
    ensures var t := Rendered(n, ids, time, m);
      InReach(t + more, |t|) && Parse(t + more, |t|) == Parsed(m.typ, 20, (|t| - 20) % LENGTHS)
    ensures Swapped(Rendered(n, ids, time, m), SOH, NUL)[20..]
         == [NUL] + Swapped(Standard(n, ids, time), SOH, NUL) + Swapped(m.msg, SOH, NUL)
          + Swapped(Trailer(Checksum(n, ids, time, m)), SOH, NUL)
    ensures Swapped(m.msg, SOH, NUL) == m.msg <==> SOH !in m.msg
  {
    hide Rendered, Standard, Swapped, Checksum;
    var t := Rendered(n, ids, time, m);
    var pre := RenderedCut(n, ids, time, m);
    var user, tail := Swapped(m.msg, NUL, SOH), Trailer(Checksum(n, ids, time, m));
    var fields := [SOH] + Standard(n, ids, time) + user + tail;
    ParsePrefix(t + more, pre, m.typ);
    SwappedConcat(pre, fields, SOH, NUL);
    SwappedConcat([SOH] + Standard(n, ids, time) + user, tail, SOH, NUL);
    SwappedConcat([SOH] + Standard(n, ids, time), user, SOH, NUL);
    SwappedConcat([SOH], Standard(n, ids, time), SOH, NUL);
    SwappedBack(m.msg);
    SwappedSoh();
  }

  lemma SwappedSoh()
    ensures Swapped([SOH], SOH, NUL) == [NUL]
  {
  }

  lemma ParsePrefix(s: string, pre: string, typ: char)
    requires |pre| == 20 && pre + [SOH] <= s
    requires pre[..12] == PREFIX && pre[16..19] == "35=" && pre[19] == typ
    requires pre[15] == SOH && pre[13] != SOH && pre[14] != SOH
    ensures forall bsz: nat | 12 <= bsz <= |s| ::
      InReach(s, bsz) && Parse(s, bsz) == Parsed(typ, 20, (bsz - 20) % LENGTHS)
  {
    assert s[..20] == pre && s[..12] == s[..20][..12] && s[16..19] == s[..20][16..19];
    assert forall i :: 0 <= i < 20 ==> s[i] == pre[i];
    assert s[20] == SOH && s[16] == pre[16..19][0] && s[17] == pre[16..19][1] && s[18] == pre[16..19][2];
  }
}
