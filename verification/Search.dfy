/** Substring search with a rolling sum of exclusive ors: `xmemmem` in src/ws.c and src/btsp.c. */
module Search {
  import opened Options

  type Octet = bv8

  predicate Occurs<T(==)>(hay: seq<T>, ndl: seq<T>, k: nat) {
    k + |ndl| <= |hay| && hay[k..k + |ndl|] == ndl
  }

  /** No occurrence starts before `k`. */
  predicate NoneBefore<T(==)>(hay: seq<T>, ndl: seq<T>, k: nat) {
    forall j: nat | j < k :: !Occurs(hay, ndl, j)
  }

  /** The start of the leftmost occurrence, or nothing if and only if there is no occurrence. */
  predicate Leftmost<T(==)>(hay: seq<T>, ndl: seq<T>, at: Option<nat>) {
    match at
    case Some(k) => Occurs(hay, ndl, k) && NoneBefore(hay, ndl, k)
    case None => NoneBefore(hay, ndl, |hay| + 1)
  }

  /** The leftmost occurrence, found by trying every place in turn. */
  function Naive<T(==)>(hay: seq<T>, ndl: seq<T>, from: nat := 0): Option<nat>
    decreases |hay| + 1 - from
  {
    if from + |ndl| > |hay| then None
    else if hay[from..from + |ndl|] == ndl then Some(from)
    else Naive(hay, ndl, from + 1)
  }

  lemma {:induction false} NaiveLeftmost<T>(hay: seq<T>, ndl: seq<T>, from: nat, at: Option<nat>)
    requires NoneBefore(hay, ndl, from) && Leftmost(hay, ndl, at)
    ensures Naive(hay, ndl, from) == at
    decreases |hay| + 1 - from
  {
    if from + |ndl| > |hay| {
    } else if hay[from..from + |ndl|] == ndl {
      assert Occurs(hay, ndl, from);
    } else {
      NaiveLeftmost(hay, ndl, from + 1, at);
    }
  }

  lemma {:induction false} NaiveSound<T>(hay: seq<T>, ndl: seq<T>, from: nat)
    requires NoneBefore(hay, ndl, from)
    ensures Leftmost(hay, ndl, Naive(hay, ndl, from))
    decreases |hay| + 1 - from
  {
    if from + |ndl| <= |hay| && hay[from..from + |ndl|] != ndl {
      NaiveSound(hay, ndl, from + 1);
    }
  }

  function Xor(s: seq<Octet>): Octet {
    if s == [] then 0 else Xor(s[..|s| - 1]) ^ s[|s| - 1]
  }

  lemma XorSnoc(s: seq<Octet>, b: Octet)
    ensures Xor(s + [b]) == Xor(s) ^ b
  {
    assert (s + [b])[..|s|] == s;
  }

  /** The first byte leaves the sum the way it came in. */
  lemma {:induction false} XorDrop(s: seq<Octet>)
    requires s != []
    ensures Xor(s) ^ s[0] == Xor(s[1..])
    decreases |s|
  {
    var n := |s| - 1;
    if n == 0 {
      assert s[..0] == [];
      XorCancel(0, s[0]);
    } else {
      XorDrop(s[..n]);
      assert s[..n][1..] == s[1..][..n - 1];
      XorSwap(Xor(s[..n]), s[n], s[0]);
    }
  }

  lemma XorCancel(a: Octet, b: Octet)
    ensures (a ^ b) ^ b == a
  {
  }

  lemma XorSwap(a: Octet, b: Octet, c: Octet)
    ensures (a ^ b) ^ c == (a ^ c) ^ b
  {
  }

  /** Equal sums and all but the last byte equal make the last byte equal. */
  lemma LastForced(s: seq<Octet>, t: seq<Octet>)
    requires |s| == |t| > 0 && Xor(s) == Xor(t) && s[..|s| - 1] == t[..|t| - 1]
    ensures s == t
  {
    var n := |s| - 1;
    SameLast(s[..n], s[n], t[n]);
    assert s == s[..n] + [s[n]] && t == t[..n] + [t[n]];
  }

  lemma SameLast(s: seq<Octet>, b: Octet, c: Octet)
    ensures Xor(s + [b]) == Xor(s + [c]) ==> b == c
  {
    hide Xor;
    XorSnoc(s, b);
    XorSnoc(s, c);
    XorInjective(Xor(s), b, c);
  }

  lemma XorInjective(a: Octet, b: Octet, c: Octet)
    ensures a ^ b == a ^ c ==> b == c
  {
    assert (a ^ b) ^ a == b && (a ^ c) ^ a == c;
  }

  /** The first place of the byte `b`. */
  method MemChr(hay: seq<Octet>, b: Octet) returns (at: Option<nat>)
    ensures at.Some? ==> at.value < |hay| && hay[at.value] == b && b !in hay[..at.value]
    ensures at.None? ==> b !in hay
  {
    var i := 0;
    while i < |hay|
      invariant i <= |hay| && b !in hay[..i]
    {
      if hay[i] == b {
        return Some(i);
      }
      i := i + 1;
    }
    at := None;
  }

  /** The sums of the needle and of as much of the haystack, from a common first byte on. */
  method FirstWindow(hay: seq<Octet>, ndl: seq<Octet>, start: nat)
    returns (n: nat, hsum: Octet, nsum: Octet, eqp: bool)
    requires ndl != [] && start < |hay| && hay[start] == ndl[0]
    ensures 1 <= n <= |ndl| && start + n <= |hay| && (n < |ndl| ==> start + n == |hay|)
    ensures hsum == Xor(hay[start..start + n]) && nsum == Xor(ndl[..n])
    ensures eqp <==> hay[start..start + n] == ndl[..n]
  {
    hide Xor;
    n, hsum, nsum, eqp := 1, hay[start], hay[start], true;
    XorOne(hay[start]);
    assert hay[start..start + 1] == [hay[start]] && ndl[..1] == [hay[start]];
    while start + n < |hay| && n < |ndl|
      invariant 1 <= n <= |ndl| && start + n <= |hay|
      invariant hsum == Xor(hay[start..start + n]) && nsum == Xor(ndl[..n])
      invariant eqp <==> hay[start..start + n] == ndl[..n]
    {
      Longer(hay, ndl, start, n);
      hsum, nsum := hsum ^ hay[start + n], nsum ^ ndl[n];
      eqp := eqp && hay[start + n] == ndl[n];
      n := n + 1;
    }
  }

  /** The windows and their sums, one byte longer. */
  lemma Longer(hay: seq<Octet>, ndl: seq<Octet>, start: nat, n: nat)
    requires start + n < |hay| && n < |ndl|
    ensures Xor(hay[start..start + n + 1]) == Xor(hay[start..start + n]) ^ hay[start + n]
    ensures Xor(ndl[..n + 1]) == Xor(ndl[..n]) ^ ndl[n]
    ensures hay[start..start + n + 1] == ndl[..n + 1]
       <==> hay[start..start + n] == ndl[..n] && hay[start + n] == ndl[n]
  {
    hide Xor;
    var a, b := hay[start..start + n], ndl[..n];
    assert hay[start..start + n + 1] == a + [hay[start + n]] && ndl[..n + 1] == b + [ndl[n]];
    XorSnoc(a, hay[start + n]);
    XorSnoc(b, ndl[n]);
    SnocSame(a, b, hay[start + n], ndl[n]);
  }

  lemma SnocSame(a: seq<Octet>, b: seq<Octet>, x: Octet, y: Octet)
    requires |a| == |b|
    ensures a + [x] == b + [y] <==> a == b && x == y
  {
    assert (a + [x])[..|a|] == a && (b + [y])[..|b|] == b && (a + [x])[|a|] == x && (b + [y])[|b|] == y;
  }

  lemma XorOne(b: Octet)
    ensures Xor([b]) == b
  {
    assert [b][..0] == [] && [b] == [] + [b];
    XorSnoc([], b);
    assert 0 ^ b == b;
  }

  /** The start of the first occurrence of the needle; a needle of no bytes is found at once. */
  method XMemMem(hay: seq<Octet>, ndl: seq<Octet>) returns (at: Option<nat>)
    ensures Leftmost(hay, ndl, at) && at == Naive(hay, ndl)
  {
    hide Xor, Naive;
    at := Some(0);
    if ndl != [] {
      at := MemChr(hay, ndl[0]);
      FirstByte(hay, ndl, at);
      if at.Some? {
        at := Roll(hay, ndl, at.value);
      }
    }
    NaiveLeftmost(hay, ndl, 0, at);
  }

  /** An occurrence does not start before the first byte does. */
  lemma FirstByte(hay: seq<Octet>, ndl: seq<Octet>, at: Option<nat>)
    requires ndl != [] && (at.Some? ==> at.value < |hay| && ndl[0] !in hay[..at.value])
    requires at.None? ==> ndl[0] !in hay
    ensures NoneBefore(hay, ndl, if at.Some? then at.value else |hay| + 1)
  {
    forall j: nat | Occurs(hay, ndl, j) ensures j < |hay| && hay[j] == ndl[0] {
      assert hay[j..j + |ndl|][0] == hay[j];
    }
  }

  method Roll(hay: seq<Octet>, ndl: seq<Octet>, start: nat) returns (at: Option<nat>)
    requires ndl != [] && start < |hay| && hay[start] == ndl[0] && NoneBefore(hay, ndl, start)
    ensures Leftmost(hay, ndl, at)
  {
    hide Xor;
    var n, hsum, nsum, eqp := FirstWindow(hay, ndl, start);
    if n < |ndl| {
      return None;
    }
    assert ndl[..n] == ndl;
    if eqp {
      return Some(start);
    }
    var cand, hp := start, start + n;
    while hp < |hay|
      invariant start <= cand && hp == cand + n <= |hay|
      invariant hsum == Xor(hay[cand..hp]) && nsum == Xor(ndl)
      invariant NoneBefore(hay, ndl, cand + 1)
    {
      Slide(hay, cand, hp);
      hsum := hsum ^ hay[cand];
      cand := cand + 1;
      hsum := hsum ^ hay[hp];
      if hsum == nsum && hay[cand..cand + n - 1] == ndl[..n - 1] {
        assert hay[cand..cand + n][..n - 1] == hay[cand..cand + n - 1];
        LastForced(hay[cand..cand + n], ndl);
        return Some(cand);
      }
      Differs(hay, ndl, cand, hsum, nsum);
      hp := hp + 1;
    }
    at := None;
  }

  /** Moving the window on by one byte. */
  lemma Slide(hay: seq<Octet>, cand: nat, hp: nat)
    requires cand < hp < |hay|
    ensures Xor(hay[cand + 1..hp + 1]) == Xor(hay[cand..hp]) ^ hay[cand] ^ hay[hp]
  {
    hide Xor;
    XorDrop(hay[cand..hp]);
    assert hay[cand..hp][1..] == hay[cand + 1..hp];
    XorSnoc(hay[cand + 1..hp], hay[hp]);
    assert hay[cand + 1..hp + 1] == hay[cand + 1..hp] + [hay[hp]];
  }

  /** A window with another sum, or with other first bytes, is not the needle. */
  lemma Differs(hay: seq<Octet>, ndl: seq<Octet>, k: nat, hsum: Octet, nsum: Octet)
    requires ndl != [] && k + |ndl| <= |hay| && hsum == Xor(hay[k..k + |ndl|]) && nsum == Xor(ndl)
    requires hsum != nsum || hay[k..k + |ndl| - 1] != ndl[..|ndl| - 1]
    ensures !Occurs(hay, ndl, k)
  {
    assert hay[k..k + |ndl|][..|ndl| - 1] == hay[k..k + |ndl| - 1];
  }

  /** The variant of src/ws.c, which points behind the occurrence. */
  method XMemMemEnd(hay: seq<Octet>, ndl: seq<Octet>) returns (end: Option<nat>)
    ensures end.None? ==> Leftmost(hay, ndl, None)
    ensures end.Some? ==> |ndl| <= end.value && Leftmost(hay, ndl, Some(end.value - |ndl|))
  {
    var at := XMemMem(hay, ndl);
    end := if at.Some? then Some(at.value + |ndl|) else None;
  }
}
