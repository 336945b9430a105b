/** De-escaping of the data strings in a line of messages, in place: src/btsp.c. */
module Massaging {
  import opened Options
  import opened Search

  const QUOTE: Octet := 34
  const BACKSLASH: Octet := 92
  const COLON: Octet := 58
  const SPACE: Octet := 32

  /** The characters `"data"`. */
  function Token(): (r: seq<Octet>)
    ensures |r| == 6
  {
    [QUOTE, 100, 97, 116, 97, QUOTE]
  }

  /** The first byte that is not white space, or nothing if the text ends before that. */
  function Blanks(s: seq<Octet>, i: nat): (r: Option<nat>)
    ensures r.Some? ==> i <= r.value < |s| && s[r.value] > SPACE
    decreases |s| - i
  {
    if i >= |s| then None else if s[i] <= SPACE then Blanks(s, i + 1) else Some(i)
  }

  /** What stands behind the token: the quote of a string, anything else, or the end of the text. */
  datatype Probe = Opens(quote: nat) | Other(next: nat) | Leaves

  function ProbeAt(s: seq<Octet>, i: nat): (r: Probe)
    ensures r.Opens? ==> i < r.quote < |s|
    ensures r.Other? ==> i < r.next <= |s|
  {
    match Blanks(s, i)
    case None => Leaves
    case Some(j) =>
      if s[j] != COLON then Other(j + 1)
      else
        match Blanks(s, j + 1)
        case None => Leaves
        case Some(k) => if s[k] == QUOTE then Opens(k) else Other(k + 1)
  }

  function Prepend(a: seq<Octet>, r: Option<seq<Octet>>): Option<seq<Octet>> {
    match r
    case None => None
    case Some(b) => Some(a + b)
  }

  /** The text with its data strings unpacked, or nothing if reading it leaves the text. */
  function Massaged(s: seq<Octet>): Option<seq<Octet>>
    decreases |s|
  {
    match Naive(s, Token())
    case None => Some(s)
    case Some(k) =>
      match ProbeAt(s, k + 6)
      case Leaves => None
      case Other(n) => Prepend(s[..n], Massaged(s[n..]))
      case Opens(q) => Prepend(s[..q], Unpacked(s[q + 1..]))
  }

  /** The same from behind an opening quote. */
  function Unpacked(s: seq<Octet>): Option<seq<Octet>>
    decreases |s|
  {
    if s == [] then None
    else if s[0] == QUOTE then Massaged(s[1..])
    else if s[0] != BACKSLASH then Prepend(s[..1], Unpacked(s[1..]))
    else if |s| == 1 then None
    else Prepend(s[1..2], Unpacked(s[2..]))
  }

  // ---- the imperative form

  /** Overreads white space from `i` on. */
  method Overread(s: seq<Octet>, i: nat) returns (r: Option<nat>)
    ensures r == Blanks(s, i)
  {
    var j := i;
    while j < |s| && s[j] <= SPACE
      invariant Blanks(s, i) == Blanks(s, j)
    {
      j := j + 1;
    }
    r := if j < |s| then Some(j) else None;
  }

  /** Looks for a colon and a quote behind the token. */
  method Probing(s: seq<Octet>, i: nat) returns (p: Probe)
    ensures p == ProbeAt(s, i)
  {
    hide Blanks;
    var j := Overread(s, i);
    if j.None? {
      return Leaves;
    } else if s[j.value] != COLON {
      return Other(j.value + 1);
    }
    j := Overread(s, j.value + 1);
    if j.None? {
      return Leaves;
    }
    p := if s[j.value] == QUOTE then Opens(j.value) else Other(j.value + 1);
  }

  /** The opening quote of the next data string, if any; `ok` is false if reading leaves the text. */
  method NextData(s: seq<Octet>) returns (ok: bool, r: Option<nat>)
    ensures !ok ==> Massaged(s) == None
    ensures ok && r.None? ==> Massaged(s) == Some(s)
    ensures ok && r.Some? ==> r.value < |s| && Massaged(s) == Prepend(s[..r.value], Unpacked(s[r.value + 1..]))
  {
    hide Naive, ProbeAt, Unpacked, Massaged, Prepend, Leftmost, Token;
    var bp := 0;
    assert s[..0] == [] && s[0..] == s;
    PrependNothing(Massaged(s));
    while true
      invariant bp <= |s| && Massaged(s) == Prepend(s[..bp], Massaged(s[bp..]))
      decreases |s| - bp
    {
      ghost var w := s[bp..];
      MassagedUnfold(w);
      var k := XMemMem(s[bp..], Token());
      if k.None? {
        PrependSome(s[..bp], w);
        assert s[..bp] + w == s;
        return true, None;
      }
      var p := Probing(s[bp..], k.value + 6);
      if p.Leaves? {
        PrependSome(s[..bp], w);
        return false, None;
      }
      if p.Opens? {
        PrependTwice(s[..bp], w[..p.quote], Unpacked(w[p.quote + 1..]));
        assert s[..bp] + w[..p.quote] == s[..bp + p.quote] && w[p.quote + 1..] == s[bp + p.quote + 1..];
        return true, Some(bp + p.quote);
      }
      Further(s, bp, p.next);
      bp := bp + p.next;
    }
  }

  lemma MassagedUnfold(w: seq<Octet>)
    ensures var k := Naive(w, Token());
      if k.None? then Massaged(w) == Some(w)
      else
        var p := ProbeAt(w, k.value + 6);
        && (p.Leaves? ==> Massaged(w) == None)
        && (p.Other? ==> Massaged(w) == Prepend(w[..p.next], Massaged(w[p.next..])))
        && (p.Opens? ==> Massaged(w) == Prepend(w[..p.quote], Unpacked(w[p.quote + 1..])))
  {
  }

  lemma PrependSome(a: seq<Octet>, b: seq<Octet>)
    ensures Prepend(a, Some(b)) == Some(a + b) && Prepend(a, None) == None
  {
  }

  lemma Further(s: seq<Octet>, bp: nat, n: nat)
    requires bp + n <= |s|
    ensures var w := s[bp..];
      Prepend(s[..bp], Prepend(w[..n], Massaged(w[n..]))) == Prepend(s[..bp + n], Massaged(s[bp + n..]))
  {
    hide Massaged;
    var w := s[bp..];
    PrependTwice(s[..bp], w[..n], Massaged(w[n..]));
    assert s[..bp] + w[..n] == s[..bp + n] && w[n..] == s[bp + n..];
  }

  lemma PrependNothing(r: Option<seq<Octet>>)
    ensures Prepend([], r) == r
  {
    assert r.Some? ==> [] + r.value == r.value;
  }

  lemma PrependTwice(a: seq<Octet>, b: seq<Octet>, r: Option<seq<Octet>>)
    ensures Prepend(a, Prepend(b, r)) == Prepend(a + b, r)
  {
    assert r.Some? ==> a + (b + r.value) == (a + b) + r.value;
  }

  /**
   * Unpacks the strings behind `"data":` in the first `bsz` bytes, in place; `t` is where writing
   * goes on and never passes the place of reading, so that what is still to be read is as it was.
   */
  method Massage(buf: array<Octet>, bsz: nat) returns (ok: bool, t: nat)
    requires bsz <= buf.Length
    modifies buf
    ensures ok <==> Massaged(old(buf[..bsz])).Some?
    ensures ok ==> t <= bsz && Massaged(old(buf[..bsz])) == Some(buf[..t])
    ensures forall i :: bsz <= i < buf.Length ==> buf[i] == old(buf[i])
  {
    hide Massaged, Unpacked, Prepend;
    ghost var s := buf[..bsz];
    var x;
    ok, x := NextData(buf[..bsz]);
    if !ok || x.None? {
      return ok, bsz;
    }
    t := x.value;
    var r := x.value + 1;
    assert buf[..t] == s[..t];
    while true
      invariant t < r <= bsz && (forall i :: r <= i < bsz ==> buf[i] == s[i])
      invariant Massaged(s) == Prepend(buf[..t], Unpacked(s[r..]))
      invariant forall i :: bsz <= i < buf.Length ==> buf[i] == old(buf[i])
      decreases bsz - r
    {
      ok, t, r := UnpackOne(buf, s, bsz, t, r);
      if !ok {
        return;
      }
      assert buf[r..bsz] == s[r..];
      ok, x := NextData(buf[r..bsz]);
      MassagedTail(s, r, buf[..t], ok, x);
      if !ok {
        return;
      }
      var y := if x.Some? then r + x.value else bsz;
      assert buf[r..y] == s[r..y];
      t := CopyDown(buf, t, r, y);
      if x.None? {
        return;
      }
      r := y + 1;
    }
  }

  /** Moves the text in between down to the place of writing. */
  method CopyDown(buf: array<Octet>, t: nat, r: nat, y: nat) returns (t': nat)
    requires t <= r <= y <= buf.Length
    modifies buf
    ensures t' == t + (y - r) && buf[..t'] == old(buf[..t]) + old(buf[r..y])
    ensures forall i :: y <= i < buf.Length ==> buf[i] == old(buf[i])
  {
    forall i | 0 <= i < y - r {
      buf[t + i] := buf[r + i];
    }
    t' := t + (y - r);
  }

  /** What the text behind a string comes to, given where the next one opens. */
  lemma MassagedTail(s: seq<Octet>, r: nat, a: seq<Octet>, ok: bool, x: Option<nat>)
    requires r <= |s| && Massaged(s) == Prepend(a, Massaged(s[r..]))
    requires !ok ==> Massaged(s[r..]) == None
    requires ok && x.None? ==> Massaged(s[r..]) == Some(s[r..])
    requires ok && x.Some? ==> x.value < |s[r..]|
    requires ok && x.Some? ==> Massaged(s[r..]) == Prepend(s[r..][..x.value], Unpacked(s[r..][x.value + 1..]))
    ensures !ok ==> Massaged(s) == None
    ensures ok && x.None? ==> Massaged(s) == Some(a + s[r..])
    ensures ok && x.Some? ==> Massaged(s) == Prepend(a + s[r..r + x.value], Unpacked(s[r + x.value + 1..]))
  {
    hide Massaged, Unpacked, Prepend;
    PrependSome(a, s[r..]);
    if ok && x.Some? {
      var y := r + x.value;
      assert s[r..][..x.value] == s[r..y] && s[r..][x.value + 1..] == s[y + 1..];
      PrependTwice(a, s[r..y], Unpacked(s[y + 1..]));
    }
  }

  /** Shrinks the rest of a string up to its closing quote, of which `r` is then one past. */
  method UnpackOne(buf: array<Octet>, ghost s: seq<Octet>, bsz: nat, t0: nat, r0: nat)
    returns (ok: bool, t: nat, r: nat)
    requires t0 < r0 <= bsz == |s| <= buf.Length && (forall i :: r0 <= i < bsz ==> buf[i] == s[i])
    requires Massaged(s) == Prepend(buf[..t0], Unpacked(s[r0..]))
    modifies buf
    ensures !ok ==> Massaged(s) == None
    ensures ok ==> t0 <= t < r <= bsz && r0 < r && (forall i :: r <= i < bsz ==> buf[i] == s[i])
    ensures ok ==> Massaged(s) == Prepend(buf[..t], Massaged(s[r..]))
    ensures forall i :: bsz <= i < buf.Length ==> buf[i] == old(buf[i])
  {
    hide Massaged, Unpacked, Prepend;
    t, r := t0, r0;
    while true
      invariant t0 <= t < r <= bsz && r0 <= r && (forall i :: r <= i < bsz ==> buf[i] == s[i])
      invariant Massaged(s) == Prepend(buf[..t], Unpacked(s[r..]))
      invariant forall i :: bsz <= i < buf.Length ==> buf[i] == old(buf[i])
      decreases bsz - r
    {
      ghost var done := buf[..t];
      UnpackStep(s, r, done);
      if r == bsz {
        return false, t, r;
      }
      buf[t] := buf[r];
      r := r + 1;
      if buf[t] == BACKSLASH {
        if r == bsz {
          return false, t, r;
        }
        buf[t] := buf[r];
        r := r + 1;
      } else if buf[t] == QUOTE {
        assert buf[..t] == done;
        return true, t, r;
      }
      assert buf[..t + 1] == done + [buf[t]];
      t := t + 1;
    }
  }

  /** What the next bytes of a string do to the text unpacked so far. */
  lemma UnpackStep(s: seq<Octet>, r: nat, a: seq<Octet>)
    requires r <= |s|
    ensures var now := Prepend(a, Unpacked(s[r..]));
      if r == |s| then now == None
      else if s[r] == QUOTE then now == Prepend(a, Massaged(s[r + 1..]))
      else if s[r] != BACKSLASH then now == Prepend(a + [s[r]], Unpacked(s[r + 1..]))
      else if r + 1 == |s| then now == None
      else now == Prepend(a + [s[r + 1]], Unpacked(s[r + 2..]))
  {
    hide Massaged;
    var w := s[r..];
    if w != [] {
      assert w[1..] == s[r + 1..] && w[..1] == [s[r]];
      PrependTwice(a, w[..1], Unpacked(s[r + 1..]));
      if |w| > 1 {
        assert w[2..] == s[r + 2..] && w[1..2] == [s[r + 1]];
        PrependTwice(a, w[1..2], Unpacked(s[r + 2..]));
      }
    }
  }
}
