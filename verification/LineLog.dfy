/** Logging of lines from chunks of a stream, src/wssnarf.c. */
module LineLog {
  import opened Options
  import opened Search
  import opened Massaging
  import opened MassageText

  const NEWLINE: Octet := 10
  const TAB: Octet := 9
  const STAMP: nat := 20      // the time stamp of a log line
  const PREFIX: nat := 21     // INI_GBOF: time stamp and tab

  // ---- lines

  predicate Bare(s: seq<Octet>) {
    forall i :: 0 <= i < |s| ==> s[i] != NEWLINE
  }

  /** Where the first line ends: at its newline, or at the end of the text. */
  function FindEnd(s: seq<Octet>): (k: nat)
    ensures k <= |s| && (k < |s| ==> s[k] == NEWLINE) && forall i :: 0 <= i < k ==> s[i] != NEWLINE
  {
    if s == [] || s[0] == NEWLINE then 0 else 1 + FindEnd(s[1..])
  }

  /** The newline-terminated lines of the text, each with its newline. */
  function Lines(s: seq<Octet>): seq<seq<Octet>>
    decreases |s|
  {
    var k := FindEnd(s);
    if k == |s| then [] else [s[..k + 1]] + Lines(s[k + 1..])
  }

  /** What follows the last newline. */
  function Tail(s: seq<Octet>): (r: seq<Octet>)
    ensures |r| <= |s|
    decreases |s|
  {
    var k := FindEnd(s);
    if k == |s| then s else Tail(s[k + 1..])
  }

  lemma FindEndIs(s: seq<Octet>, k: nat)
    requires k <= |s| && (k < |s| ==> s[k] == NEWLINE) && forall i :: 0 <= i < k ==> s[i] != NEWLINE
    ensures FindEnd(s) == k
  {
    hide FindEnd;
  }

  lemma LinesStep(s: seq<Octet>, k: nat)
    requires k < |s| && s[k] == NEWLINE && forall i :: 0 <= i < k ==> s[i] != NEWLINE
    ensures Lines(s) == [s[..k + 1]] + Lines(s[k + 1..]) && Tail(s) == Tail(s[k + 1..])
  {
    hide FindEnd;
    FindEndIs(s, k);
  }

  lemma LinesNone(s: seq<Octet>)
    requires Bare(s)
    ensures Lines(s) == [] && Tail(s) == s
  {
    hide FindEnd;
    FindEndIs(s, |s|);
  }

  /** Lines and tail, with more text coming: the tail and that text make the further lines. */
  lemma {:induction false} LinesConcat(a: seq<Octet>, b: seq<Octet>)
    ensures Lines(a + b) == Lines(a) + Lines(Tail(a) + b) && Tail(a + b) == Tail(Tail(a) + b)
    decreases |a|
  {
    hide FindEnd, Lines, Tail;
    var k := FindEnd(a);
    if k == |a| {
      LinesNone(a);
    } else {
      assert (a + b)[..k + 1] == a[..k + 1] && (a + b)[k + 1..] == a[k + 1..] + b;
      LinesStep(a, k);
      LinesStep(a + b, k);
      LinesConcat(a[k + 1..], b);
    }
  }

  /** The lines put together again, with the tail. */
  function Joined(ls: seq<seq<Octet>>): seq<Octet> {
    if ls == [] then [] else ls[0] + Joined(ls[1..])
  }

  predicate IsLine(l: seq<Octet>) {
    l != [] && l[|l| - 1] == NEWLINE && Bare(l[..|l| - 1])
  }

  lemma {:induction false} LinesJoin(s: seq<Octet>)
    ensures Joined(Lines(s)) + Tail(s) == s && Bare(Tail(s))
    ensures forall i :: 0 <= i < |Lines(s)| ==> IsLine(Lines(s)[i])
    decreases |s|
  {
    hide FindEnd, Lines, Tail;
    var k := FindEnd(s);
    if k == |s| {
      LinesNone(s);
      assert [] + s == s;
    } else {
      var l, rest := s[..k + 1], s[k + 1..];
      LinesStep(s, k);
      assert IsLine(l) && s == l + rest;
      LinesJoin(rest);
      assert ([l] + Lines(rest))[1..] == Lines(rest);
      assert l + Joined(Lines(rest)) + Tail(rest) == l + (Joined(Lines(rest)) + Tail(rest));
    }
  }

  lemma {:induction false} JoinLines(ls: seq<seq<Octet>>, r: seq<Octet>)
    requires Bare(r) && forall i :: 0 <= i < |ls| ==> IsLine(ls[i])
    ensures Lines(Joined(ls) + r) == ls && Tail(Joined(ls) + r) == r
    decreases |ls|
  {
    hide Lines, Tail;
    if ls == [] {
      assert [] + r == r;
      LinesNone(r);
    } else {
      var l, more := ls[0], Joined(ls[1..]) + r;
      assert Joined(ls) + r == l + more;
      assert IsLine(l);
      LineAhead(l, more);
      JoinLines(ls[1..], r);
      assert ls == [l] + ls[1..];
    }
  }

  lemma LineAhead(l: seq<Octet>, more: seq<Octet>)
    requires IsLine(l)
    ensures Lines(l + more) == [l] + Lines(more) && Tail(l + more) == Tail(more)
  {
    hide Lines, Tail;
    var s, k := l + more, |l| - 1;
    assert forall i :: 0 <= i < k ==> l[..k][i] == s[i];
    assert s[..k + 1] == l && s[k + 1..] == more;
    LinesStep(s, k);
  }

  /** Lines and tail are the one way to cut the text behind its newlines. */
  lemma LinesExact(s: seq<Octet>, ls: seq<seq<Octet>>, r: seq<Octet>)
    ensures Lines(s) == ls && Tail(s) == r
       <==> Joined(ls) + r == s && Bare(r) && forall i :: 0 <= i < |ls| ==> IsLine(ls[i])
  {
    hide Lines, Tail, Joined, IsLine;
    LinesJoin(s);
    if Joined(ls) + r == s && Bare(r) && forall i :: 0 <= i < |ls| ==> IsLine(ls[i]) {
      JoinLines(ls, r);
    }
  }

  // ---- the log

  type Hook = seq<Octet> -> seq<Octet>

  ghost predicate NeverLonger(hook: Hook) {
    forall s: seq<Octet> :: |hook(s)| <= |s|
  }

  /**
   * The hook of src/btsp.c as far as it is a function of the line. Where reading leaves the line, what
   * the hook does depends on what stands behind it; the line itself stands in for that here.
   */
  function Unpack(line: seq<Octet>): seq<Octet> {
    if Massaged(line).Some? then Massaged(line).value else line
  }

  lemma Shorter(hook: Hook, s: seq<Octet>)
    requires NeverLonger(hook)
    ensures |hook(s)| <= |s|
  {
  }

  lemma UnpackNeverLonger()
    ensures NeverLonger(Unpack)
  {
    forall s: seq<Octet> ensures |Unpack(s)| <= |s| {
      MassagedShorter(s);
    }
  }

  function Map(hook: Hook, ls: seq<seq<Octet>>): (r: seq<seq<Octet>>)
    ensures |r| == |ls|
  {
    seq(|ls|, i requires 0 <= i < |ls| => hook(ls[i]))
  }

  /** What is written for the lines: each behind the time stamp and a tab. */
  function Stamped(stamp: seq<Octet>, ls: seq<seq<Octet>>): (r: seq<seq<Octet>>)
    ensures |r| == |ls|
  {
    seq(|ls|, i requires 0 <= i < |ls| => stamp + [TAB] + ls[i])
  }

  /** The log without the time stamps and tabs. */
  function Bodies(ws: seq<seq<Octet>>): (r: seq<seq<Octet>>)
    ensures |r| == |ws|
  {
    seq(|ws|, i requires 0 <= i < |ws| => if |ws[i]| >= PREFIX then ws[i][PREFIX..] else [])
  }

  lemma BodiesStamped(stamp: seq<Octet>, ls: seq<seq<Octet>>)
    requires |stamp| == STAMP
    ensures Bodies(Stamped(stamp, ls)) == ls
  {
    forall i | 0 <= i < |ls| ensures (stamp + [TAB] + ls[i])[PREFIX..] == ls[i] {
    }
  }

  /** What is written for the complete lines of a text. */
  function Logged(stamp: seq<Octet>, hook: Hook, s: seq<Octet>): seq<seq<Octet>> {
    Stamped(stamp, Map(hook, Lines(s)))
  }

  /** The next line of the text, found by its newline. */
  lemma LoggedStep(stamp: seq<Octet>, hook: Hook, s: seq<Octet>, k: nat)
    requires k < |s| && s[k] == NEWLINE && Bare(s[..k])
    ensures Logged(stamp, hook, s) == [stamp + [TAB] + hook(s[..k + 1])] + Logged(stamp, hook, s[k + 1..])
    ensures Tail(s) == Tail(s[k + 1..])
  {
    hide Lines, Tail, FindEnd;
    assert forall i :: 0 <= i < k ==> s[..k][i] == s[i];
    LinesStep(s, k);
    StampedStep(stamp, hook, s[..k + 1], Lines(s[k + 1..]));
  }

  lemma StampedStep(stamp: seq<Octet>, hook: Hook, l: seq<Octet>, ls: seq<seq<Octet>>)
    ensures Stamped(stamp, Map(hook, [l] + ls)) == [stamp + [TAB] + hook(l)] + Stamped(stamp, Map(hook, ls))
  {
  }

  lemma LoggedNone(stamp: seq<Octet>, hook: Hook, s: seq<Octet>)
    requires Bare(s)
    ensures Logged(stamp, hook, s) == [] && Tail(s) == s
  {
    LinesNone(s);
  }

  /** The log of more text behind the log of some. */
  lemma LoggedMore(hook: Hook, stamp: seq<Octet>, ws: seq<seq<Octet>>, a: seq<Octet>, b: seq<Octet>)
    requires |stamp| == STAMP && Bodies(ws) == Map(hook, Lines(a))
    ensures Bodies(ws + Logged(stamp, hook, Tail(a) + b)) == Map(hook, Lines(a + b))
    ensures Tail(a + b) == Tail(Tail(a) + b)
  {
    hide Lines, Tail;
    LinesConcat(a, b);
    var ls := Lines(Tail(a) + b);
    var more := Map(hook, ls);
    BodiesStamped(stamp, more);
    assert Bodies(ws + Stamped(stamp, more)) == Bodies(ws) + Bodies(Stamped(stamp, more));
    assert Map(hook, Lines(a) + ls) == Map(hook, Lines(a)) + more;
  }

  class Buffer {
    var p: array<Octet>  // a socket's buffer; its length is z
    var n: nat           // bytes in use, the first 21 of them room for the prefix
    var writes: seq<seq<Octet>>
    const hook: Hook     // massage, of the exchange at hand

    ghost var received: seq<Octet>  // since the last reset
    ghost var base: nat             // writes before the last reset

    constructor (hook: Hook)
      requires NeverLonger(hook)
      ensures Valid() && fresh(p) && this.hook == hook && writes == []
    {
      this.hook := hook;
      p, n, writes, received, base := new Octet[0], 0, [], [], 0;
    }

    ghost predicate Sized()
      reads this
    {
      (p.Length == 0 && n <= PREFIX) || (4096 <= p.Length && n <= p.Length)
    }

    ghost function Residue(): seq<Octet>
      requires Sized()
      reads this, p
    {
      if n <= PREFIX then [] else p[PREFIX..n]
    }

    /**
     * Since the last reset, whatever the chunks were: the lines logged are the complete lines
     * received, massaged, each once and in order, and what is kept is the unterminated tail.
     */
    ghost predicate Valid()
      reads this, p
    {
      && NeverLonger(hook) && Sized() && base <= |writes|
      && Bodies(writes[base..]) == Map(hook, Lines(received)) && Residue() == Tail(received)
    }

    method Reset()
      requires Valid()
      modifies this`n, this`received, this`base
      ensures Valid() && n == PREFIX && received == [] && base == |writes|
    {
      n, received, base := PREFIX, [], |writes|;
    }

    /** Makes room for another read: afterwards at least 4000 bytes are free. */
    method Reserve(room: nat)
      requires Valid() && n >= PREFIX && (room == 4000 || room == 4096)
      modifies this`p
      ensures Valid() && p.Length >= n + 4000 && (p == old(p) || fresh(p)) && Residue() == old(Residue())
    {
      hide Lines, Tail, Map, Bodies, NeverLonger;
      if p.Length < n + room {
        var nuz := if p.Length == 0 then 4096 else p.Length * 2;
        var q := new Octet[nuz];
        forall i | 0 <= i < p.Length {
          q[i] := p[i];
        }
        assert n > PREFIX ==> q[PREFIX..n] == p[PREFIX..n];
        p := q;
      }
    }

    /**
     * Logs the complete lines of the `len` bytes behind the prefix. Each is moved to the front of the
     * buffer that is still being scanned, and massaged there.
     */
    method LogWss(stamp: seq<Octet>, len: nat) returns (npr: nat)
      requires NeverLonger(hook) && |stamp| == STAMP && PREFIX + len <= p.Length
      modifies p, this`writes
      ensures var s := old(p[PREFIX..PREFIX + len]);
        && writes == old(writes) + Logged(stamp, hook, s)
        && npr == len - |Tail(s)| && p[PREFIX + npr..PREFIX + len] == Tail(s)
    {
      hide Tail, Logged, NeverLonger, Lines, FindEnd, Stamped, Map;
      ghost var s := p[PREFIX..PREFIX + len];
      PutStamp(stamp);
      npr := 0;
      assert s[0..] == s;
      while npr < len
        invariant npr <= len && (forall i :: PREFIX + npr <= i < PREFIX + len ==> p[i] == s[i - PREFIX])
        invariant p[..PREFIX] == stamp + [TAB] && Tail(s) == Tail(s[npr..])
        invariant writes + Logged(stamp, hook, s[npr..]) == old(writes) + Logged(stamp, hook, s)
      {
        assert p[PREFIX + npr..PREFIX + len] == s[npr..];
        var more, k := LogNext(stamp, npr, len, s[npr..]);
        if !more {
          assert p[PREFIX + npr..PREFIX + len] == s[npr..];
          return;
        }
        assert s[npr..][k..] == s[npr + k..];
        npr := npr + k;
      }
      LoggedNone(stamp, hook, s[npr..]);
    }

    /** Logs the line at `lp` behind the prefix, if it is complete; `k` is its length. */
    method LogNext(stamp: seq<Octet>, lp: nat, len: nat, ghost s: seq<Octet>) returns (more: bool, k: nat)
      requires NeverLonger(hook) && |stamp| == STAMP && PREFIX + len <= p.Length && lp < len
      requires p[..PREFIX] == stamp + [TAB] && p[PREFIX + lp..PREFIX + len] == s
      modifies p, this`writes
      ensures p[..PREFIX] == stamp + [TAB]
      ensures !more ==> writes == old(writes) && p[..] == old(p[..]) && Logged(stamp, hook, s) == [] && Tail(s) == s
      ensures more ==> 0 < k <= |s| && Tail(s) == Tail(s[k..])
      ensures more ==> writes + Logged(stamp, hook, s[k..]) == old(writes) + Logged(stamp, hook, s)
      ensures more ==> forall i :: PREFIX + lp + k <= i < p.Length ==> p[i] == old(p[i])
    {
      hide Tail, Logged, NeverLonger, Lines, FindEnd, Stamped, Map;
      var eol := MemChr(p[PREFIX + lp..PREFIX + len], NEWLINE);
      if eol.None? {
        LoggedNone(stamp, hook, s);
        return false, 0;
      }
      k := eol.value + 1;
      LoggedStep(stamp, hook, s, k - 1);
      assert p[PREFIX + lp..PREFIX + lp + k] == s[..k];
      LogLine(stamp, lp, k - 1, s[..k]);
      more := true;
    }

    method PutStamp(stamp: seq<Octet>)
      requires |stamp| == STAMP && PREFIX <= p.Length
      modifies p
      ensures p[..PREFIX] == stamp + [TAB] && forall i :: PREFIX <= i < p.Length ==> p[i] == old(p[i])
    {
      forall i | 0 <= i < STAMP {
        p[i] := stamp[i];
      }
      p[STAMP] := TAB;
    }

    /** Logs the line of `k` bytes and a newline at `lp` behind the prefix. */
    method LogLine(stamp: seq<Octet>, lp: nat, k: nat, ghost line: seq<Octet>)
      requires NeverLonger(hook) && |stamp| == STAMP && PREFIX + lp + k < p.Length
      requires p[..PREFIX] == stamp + [TAB] && p[PREFIX + lp..PREFIX + lp + k + 1] == line && line[k] == NEWLINE
      modifies p, this`writes
      ensures writes == old(writes) + [stamp + [TAB] + hook(line)]
      ensures p[..PREFIX] == stamp + [TAB]
      ensures forall i :: PREFIX + lp + k + 1 <= i < p.Length ==> p[i] == old(p[i])
    {
      hide NeverLonger;
      assert p[PREFIX + lp..PREFIX + lp + k] + [NEWLINE] == line;
      PutFront(p[PREFIX + lp..PREFIX + lp + k] + [NEWLINE]);
      var r := hook(p[PREFIX..PREFIX + k + 1]);
      assert |r| <= k + 1 by {
        Shorter(hook, line);
      }
      PutFront(r);
      assert p[..PREFIX + |r|] == p[..PREFIX] + p[PREFIX..PREFIX + |r|];
      writes := writes + [p[..PREFIX + |r|]];
    }

    /** Puts `r` behind the prefix. */
    method PutFront(r: seq<Octet>)
      requires PREFIX + |r| <= p.Length
      modifies p
      ensures p[..PREFIX] == old(p[..PREFIX]) && p[PREFIX..PREFIX + |r|] == r
      ensures forall i :: PREFIX + |r| <= i < p.Length ==> p[i] == old(p[i])
    {
      forall i | 0 <= i < |r| {
        p[PREFIX + i] := r[i];
      }
    }

    /** A read of `chunk` into the buffer in a state in which what comes is logged. */
    method Receive(stamp: seq<Octet>, chunk: seq<Octet>)
      requires Valid() && n >= PREFIX && |stamp| == STAMP && |chunk| <= p.Length - n
      modifies p, this`n, this`writes, this`received
      ensures Valid() && n >= PREFIX && received == old(received) + chunk && base == old(base)
      ensures writes == old(writes) + Logged(stamp, hook, Tail(old(received)) + chunk)
    {
      hide Lines, Tail, Map, Logged, Bodies, NeverLonger;
      ghost var tail, ws := Residue(), writes[base..];
      Append(chunk);
      var npr := LogWss(stamp, n - PREFIX);
      Keep(npr);
      LoggedMore(hook, stamp, ws, received, chunk);
      received := received + chunk;
      assert writes[base..] == ws + Logged(stamp, hook, tail + chunk);
    }

    method Append(chunk: seq<Octet>)
      requires Sized() && PREFIX <= n && n + |chunk| <= p.Length
      modifies p, this`n
      ensures n == old(n) + |chunk| && p[PREFIX..n] == old(p[PREFIX..n]) + chunk
    {
      forall i | 0 <= i < |chunk| {
        p[n + i] := chunk[i];
      }
      n := n + |chunk|;
    }

    /** Moves what is not logged yet to the front. */
    method Keep(npr: nat)
      requires Sized() && PREFIX + npr <= n <= p.Length
      modifies p, this`n
      ensures n == old(n) - npr && Sized() && p[PREFIX..n] == old(p[PREFIX + npr..n])
    {
      forall i | 0 <= i < n - PREFIX - npr {
        p[PREFIX + i] := p[PREFIX + npr + i];
      }
      n := n - npr;
    }
  }

  /**
   * What is logged with the hook of src/btsp.c, as long as reading stays within each line: every line
   * received, with its data strings unpacked.
   */
  lemma UnpackedLog(b: Buffer)
    requires b.Valid() && (forall s: seq<Octet> :: b.hook(s) == Unpack(s))
    requires forall i :: 0 <= i < |Lines(b.received)| ==> Massaged(Lines(b.received)[i]).Some?
    ensures var ws, ls := Bodies(b.writes[b.base..]), Lines(b.received);
      |ws| == |ls| && forall i :: 0 <= i < |ls| ==> Massaged(ls[i]) == Some(ws[i])
  {
    hide Lines, Tail, Bodies, Massaged, NeverLonger;
  }

  /** Reading can leave a line: behind `"data":` the newline is taken for white space. */
  lemma LineLeft()
    ensures IsLine([34, 100, 97, 116, 97, 34, 58, 10]) && Massaged([34, 100, 97, 116, 97, 34, 58, 10]) == None
  {
    var l: seq<Octet> := Token() + [COLON, NEWLINE];
    assert l == [34, 100, 97, 116, 97, 34, 58, 10];
    assert l[0..0 + 6] == Token();
    assert Blanks(l, 6) == Some(6);
    assert Blanks(l, 8) == None;
    assert Blanks(l, 7) == None;
  }
}
