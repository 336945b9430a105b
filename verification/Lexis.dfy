/** Which strings and primitives the tokenizer reads: the grammar of both scans, without scanning. */
module Lexis {
  import opened Options
  import opened Strings
  import opened Tokenizer

  predicate HexDigit(c: char) {
    c in "0123456789abcdefABCDEF"
  }

  /**
   * The text between two quotes: characters other than quote, backslash and NUL, escapes of one
   * character, and `\u` with four hexadecimal digits. Control characters are let through.
   */
  predicate StringText(s: string) {
    if s == "" then true
    else if s[0] != '\\' then s[0] != '\"' && s[0] != NUL && StringText(s[1..])
    else if |s| >= 6 && s[1] == 'u' then (forall i :: 2 <= i < 6 ==> HexDigit(s[i])) && StringText(s[6..])
    else |s| >= 2 && s[1] in "\"\\/bfnrt" && StringText(s[2..])
  }

  /** Where a primitive ends: white space, a colon, a comma, a closing bracket or the end. */
  predicate Terminates(js: string, e: nat) {
    e >= |js| || js[e] == NUL || js[e] in " \t\r\n:,]}"
  }

  lemma HexDigits(c: char)
    ensures HexDigit(c) <==> IsHex(c)
    ensures HexDigit(c) ==> c != NUL
  {
  }

  ghost predicate AllHexDigits(js: string, q: nat, n: nat) {
    q + n <= |js| && forall i :: q <= i < q + n ==> HexDigit(js[i])
  }

  lemma {:induction false} HexScanned(js: string, q: nat, n: nat)
    ensures var h := ScanHex(js, q, n);
      && (h.Some? && !AtEnd(js, h.value) ==> h.value == q + n && AllHexDigits(js, q, n))
      && (AllHexDigits(js, q, n) ==> h == Some(q + n))
    decreases n
  {
    hide HexDigit, IsHex;
    if n > 0 && q < |js| {
      HexDigits(js[q]);
      HexScanned(js, q + 1, n - 1);
    }
  }

  /** A string ends at `e` exactly if there is a quote there and what is before it is the text of a string. */
  lemma {:induction false} StringExact(js: string, p: nat, e: nat)
    ensures ScanString(js, p) == Some(e) <==> p <= e < |js| && js[e] == '\"' && StringText(js[p..e])
    decreases |js| - p
  {
    hide ScanHex;
    if p < |js| && js[p] != NUL && js[p] != '\"' {
      var n := if js[p] != '\\' || p + 1 == |js| then 1 else if js[p + 1] == 'u' then 6 else 2;
      if n == 6 {
        HexScanned(js, p + 2, 4);
      }
      StringExact(js, p + n, e);
      if p + n <= e < |js| {
        assert forall i :: 0 <= i < n ==> js[p..e][i] == js[p + i];
        assert js[p..e][n..] == js[p + n..e];
      }
    }
  }

  /** A primitive ends at the first place where one can, all before it being printable. */
  lemma {:induction false} PrimitiveExact(js: string, p: nat, e: nat)
    requires p <= |js|
    ensures ScanPrimitive(js, p) == Some(e) <==>
      && p <= e <= |js| && Terminates(js, e)
      && forall i :: p <= i < e ==> !Terminates(js, i) && ' ' <= js[i] < 127 as char
    decreases |js| - p
  {
    if !Terminates(js, p) {
      PrimitiveExact(js, p + 1, e);
    }
  }

  /** A character that is not printable comes at `k`, before the first such place. */
  predicate Unprintable(js: string, p: nat, k: int) {
    && p <= k < |js| && !(' ' <= js[k] < 127 as char)
    && forall i :: p <= i <= k ==> !Terminates(js, i)
  }

  /** It is refused exactly if there is one. */
  lemma {:induction false} PrimitiveRefused(js: string, p: nat)
    requires p <= |js|
    ensures ScanPrimitive(js, p).None? <==> exists k :: Unprintable(js, p, k)
    decreases |js| - p
  {
    hide Terminates;
    Ends(js, p);
    if p < |js| && !Terminates(js, p) {
      PrimitiveRefused(js, p + 1);
      if !(' ' <= js[p] < 127 as char) {
        assert Unprintable(js, p, p);
      } else if ScanPrimitive(js, p + 1).None? {
        var k :| Unprintable(js, p + 1, k);
        assert Unprintable(js, p, k);
      }
      forall k | Unprintable(js, p, k) ensures ScanPrimitive(js, p).None? {
        if k > p {
          assert Unprintable(js, p + 1, k);
        }
      }
    }
  }

  lemma Ends(js: string, p: nat)
    ensures Terminates(js, p) <==> AtEnd(js, p) || EndsPrimitive(js[p])
  {
  }
}
