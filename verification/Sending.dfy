/** Sending of WebSocket frames, src/ws.c, and what becomes of them when they are received. */
module Sending {
  import opened Bits
  import opened Options
  import opened Frames
  import opened Ws

  /** Sixteen bits of a length, from the most significant word 0 to the least significant word 3. */
  function Word(n: nat, k: nat): (w: nat)
    requires k < 4
    ensures w < 65536
  {
    n / (if k == 0 then 0x1_0000_0000_0000 else if k == 1 then 0x1_0000_0000 else if k == 2 then 0x1_0000 else 1) % 65536
  }

  function WordBytes(w: nat): (r: seq<Byte>)
    requires w < 65536
    ensures |r| == 2
  {
    [w / 256, w % 256]
  }

  /**
   * The header of a final text frame with a masking key of zero. From 65536 bytes on the words of the
   * length come out last word first on a little-endian host, being taken from the swapped length.
   */
  function SendHeader(n: nat): (h: seq<Byte>)
    requires n < 0x1_0000_0000_0000_0000
    ensures 6 <= |h| <= FRAME_HEADER
  {
    if n >= 65536 then
      [129, 255] + (WordBytes(Word(n, 3)) + WordBytes(Word(n, 2)) + WordBytes(Word(n, 1)) + WordBytes(Word(n, 0)))
      + [0, 0, 0, 0]
    else if n >= 126 then [129, 254] + WordBytes(n) + [0, 0, 0, 0]
    else [129, 128 + n] + [0, 0, 0, 0]
  }

  /** Lengths whose header a receiver understands. */
  predicate LengthSent(n: nat) {
    n < 65536 || (Word(n, 0) == Word(n, 3) && Word(n, 1) == Word(n, 2))
  }

  /**
   * The length of a frame sent is understood exactly for payloads below 65536 bytes and for longer
   * ones whose length reads the same with its words reversed.
   */
  lemma SendHeaderExact(n: nat)
    requires n < 0x1_0000_0000_0000_0000
    ensures var h := SendHeader(n);
      && HeaderComplete(h) && HeaderLength(h) == |h| && Opcode(h) == 1 && Fin(h)
      && (PayloadLength(h) == n <==> LengthSent(n))
  {
    var h := SendHeader(n);
    if n >= 65536 {
      var a, b, c, d := Word(n, 0), Word(n, 1), Word(n, 2), Word(n, 3);
      var w := h[2..10];
      assert w == WordBytes(d) + WordBytes(c) + WordBytes(b) + WordBytes(a);
      BigEndianWords(d, c, b, a);
      WordsOf(n);
    } else if n >= 126 {
      assert h[2..4] == WordBytes(n);
      BigEndianSnoc([], n / 256);
      BigEndianSnoc([n / 256], n % 256);
      assert [] + [n / 256] == [n / 256] && [n / 256] + [n % 256] == WordBytes(n);
    }
  }

  lemma BigEndianSnoc(w: seq<Byte>, b: Byte)
    ensures BigEndian(w + [b]) == 256 * BigEndian(w) + b
  {
    assert (w + [b])[..|w|] == w;
  }

  lemma BigEndianWord(w: seq<Byte>, x: nat)
    requires x < 65536
    ensures BigEndian(w + WordBytes(x)) == 65536 * BigEndian(w) + x
  {
    BigEndianSnoc(w, x / 256);
    BigEndianSnoc(w + [x / 256], x % 256);
    assert w + [x / 256] + [x % 256] == w + WordBytes(x);
  }

  lemma BigEndianWords(a: nat, b: nat, c: nat, d: nat)
    requires a < 65536 && b < 65536 && c < 65536 && d < 65536
    ensures BigEndian(WordBytes(a) + WordBytes(b) + WordBytes(c) + WordBytes(d))
         == 0x1_0000_0000_0000 * a + 0x1_0000_0000 * b + 0x1_0000 * c + d
  {
    assert [] + WordBytes(a) == WordBytes(a);
    BigEndianWord([], a);
    BigEndianWord(WordBytes(a), b);
    BigEndianWord(WordBytes(a) + WordBytes(b), c);
    BigEndianWord(WordBytes(a) + WordBytes(b) + WordBytes(c), d);
  }

  lemma WordsOf(n: nat)
    requires n < 0x1_0000_0000_0000_0000
    ensures n == 0x1_0000_0000_0000 * Word(n, 0) + 0x1_0000_0000 * Word(n, 1) + 0x1_0000 * Word(n, 2) + Word(n, 3)
  {
    var a, b, c := n / 0x1_0000, n / 0x1_0000_0000, n / 0x1_0000_0000_0000;
    assert a / 0x1_0000 == b && b / 0x1_0000 == c && c / 0x1_0000 == 0;
  }

  function SendFrame(p: seq<Byte>): seq<Byte>
    requires |p| < 0x1_0000_0000_0000_0000
  {
    SendHeader(|p|) + p
  }

  class Sender {
    var gbuf: array?<Byte>
    var gbsz: nat

    constructor ()
      ensures gbuf == null && gbsz == 0
    {
      gbuf, gbsz := null, 0;
    }

    /**
     * Builds the frame in the buffer, growing it to the next multiple of 256 if need be; without
     * memory for that there is no buffer any more, and nothing is sent.
     */
    method Send(p: seq<Byte>, memory: bool) returns (sent: Option<seq<Byte>>)
      requires |p| < 0x1_0000_0000_0000_0000 && (gbuf == null ==> gbsz == 0) && (gbuf != null ==> gbsz == gbuf.Length)
      modifies this, gbuf
      ensures gbuf == null ==> gbsz == 0
      ensures gbuf != null ==> gbsz == gbuf.Length && (gbuf == old(gbuf) || fresh(gbuf))
      ensures sent.None? <==> !memory && old(gbsz) < |SendFrame(p)|
      ensures sent.None? ==> gbuf == null
      ensures sent.Some? ==> sent.value == SendFrame(p) && gbuf != null && |sent.value| <= gbuf.Length
      ensures sent.Some? ==> gbuf[..|sent.value|] == sent.value
    {
      hide SendHeader;
      var fr := SendHeader(|p|);
      var slen := |fr|;
      if gbuf == null || gbsz < slen + |p| {
        gbuf, gbsz := null, 0;
        if !memory {
          return None;
        }
        gbsz := ((slen + |p|) / 256 + 1) * 256;
        gbuf := new Byte[gbsz];
      }
      forall i | 0 <= i < slen {
        gbuf[i] := fr[i];
      }
      forall i | 0 <= i < |p| {
        gbuf[slen + i] := p[i];
      }
      assert gbuf[..slen + |p|] == fr + p;
      sent := Some(gbuf[..slen + |p|]);
    }
  }

  // ---- sending and receiving

  function SendAll(ps: seq<seq<Byte>>): seq<Byte>
    requires forall i :: 0 <= i < |ps| ==> |ps[i]| < 0x1_0000_0000_0000_0000
  {
    if ps == [] then [] else SendFrame(ps[0]) + SendAll(ps[1..])
  }

  function NonEmpty(ps: seq<seq<Byte>>): seq<seq<Byte>> {
    if ps == [] then [] else (if ps[0] == [] then [] else [ps[0]]) + NonEmpty(ps[1..])
  }

  predicate AllSent(ps: seq<seq<Byte>>) {
    forall i :: 0 <= i < |ps| ==> |ps[i]| < 0x1_0000_0000_0000_0000 && LengthSent(|ps[i]|)
  }

  lemma FrameAlone(p: seq<Byte>, a: Assembly)
    requires |p| < 0x1_0000_0000_0000_0000 && LengthSent(|p|) && a.cur == []
    ensures Feed(IDLE, SendFrame(p)) == Some(IDLE) && AllPlain(IDLE, SendFrame(p)) && AllSupported(IDLE, SendFrame(p))
    ensures Messages(a, IDLE, SendFrame(p)) == Assembly(a.done + (if p == [] then [] else [p]), [])
  {
    hide HeaderLength, PayloadLength, Opcode, Fin, SendHeader;
    var h := SendHeader(|p|);
    SendHeaderExact(|p|);
    HeaderPrefix(h, p);
    HeaderOnly(h);
    HeaderEnds(h);
    assert h[HeaderLength(h)..] + p == p;
    var m := Started(h);
    FeedConcat(IDLE, h, p);
    MessagesConcat(a, IDLE, h, p);
    if p != [] {
      assert p[..|p|] == p && p[|p|..] == [];
      assert Take(m, |p|) == IDLE;
      assert Messages(a, m, p) == Messages(Ended(Handing(a, 1, p), IDLE, 1, true), IDLE, p[|p|..]) == a.Add(p).Cut();
      assert Feed(m, p) == Feed(IDLE, p[|p|..]) == Some(IDLE);
      assert AllPlain(m, p) == AllPlain(IDLE, p[|p|..]);
      assert AllSupported(m, p) == AllSupported(IDLE, p[|p|..]);
    } else {
      assert h + p == h && a.done + [] == a.done;
    }
  }

  lemma {:induction false} SentStream(ps: seq<seq<Byte>>, a: Assembly)
    requires AllSent(ps) && a.cur == []
    ensures Feed(IDLE, SendAll(ps)) == Some(IDLE) && AllPlain(IDLE, SendAll(ps)) && AllSupported(IDLE, SendAll(ps))
    ensures Messages(a, IDLE, SendAll(ps)) == Assembly(a.done + NonEmpty(ps), [])
    decreases |ps|
  {
    hide SendFrame, LengthSent, AllPlain, AllSupported, Feed, Messages, Payload, SendAll, NonEmpty;
    if ps == [] {
      NoFrames(a);
      SendNone();
      assert a.done + [] == a.done;
    } else {
      SendFirst(ps);
      var w, rest := SendFrame(ps[0]), SendAll(ps[1..]);
      FrameAlone(ps[0], a);
      var b := Assembly(a.done + (if ps[0] == [] then [] else [ps[0]]), []);
      SentStream(ps[1..], b);
      FeedConcat(IDLE, w, rest);
      MessagesConcat(a, IDLE, w, rest);
      assert b.done + NonEmpty(ps[1..]) == a.done + NonEmpty(ps);
    }
  }

  lemma NoFrames(a: Assembly)
    ensures Feed(IDLE, []) == Some(IDLE) && AllPlain(IDLE, []) && AllSupported(IDLE, []) && Messages(a, IDLE, []) == a
  {
  }

  /** Messages once complete stay as they are. */
  lemma {:induction false} MessagesGrow(a: Assembly, m: Mode, c: seq<Byte>)
    ensures a.done <= Messages(a, m, c).done
    decreases |c|
  {
    if c != [] {
      if m.togo > 0 {
        var n := Min(m.togo, |c|);
        MessagesGrow(Ended(Handing(a, m.code, c[..n]), Take(m, n), m.code, m.fin), Take(m, n), c[n..]);
      } else if HeaderComplete(c) {
        MessagesGrow(Ended(a, Started(c), Opcode(c), Fin(c)), Started(c), c[HeaderLength(c)..]);
      }
    }
  }

  /** What the bytes received so far bring is a first part of what all bytes sent bring. */
  lemma ReceivedPrefix(ps: seq<seq<Byte>>, c: seq<Byte>, tail: seq<Byte>)
    requires AllSent(ps) && c + tail == SendAll(ps) && Feed(IDLE, c).Some?
    ensures AllPlain(IDLE, c) && Messages(NO_MESSAGES, IDLE, c).done <= NonEmpty(ps)
    ensures tail == [] ==> Messages(NO_MESSAGES, IDLE, c) == Assembly(NonEmpty(ps), [])
  {
    hide AllPlain, Feed, Messages, LengthSent, SendFrame, SendAll, NonEmpty;
    SentStream(ps, NO_MESSAGES);
    FeedConcat(IDLE, c, tail);
    MessagesConcat(NO_MESSAGES, IDLE, c, tail);
    MessagesGrow(Messages(NO_MESSAGES, IDLE, c), Feed(IDLE, c).value, tail);
    assert [] + NonEmpty(ps) == NonEmpty(ps);
    if tail == [] {
      assert c + tail == c;
    }
  }

  /**
   * Sending and receiving agree: however the frames sent are cut into reads, and whatever is still
   * to come, the lines received so far are the first of the payloads sent, in order; they are all of
   * them once nothing is stashed or outstanding.
   */
  lemma SendReceive(ps: seq<seq<Byte>>, conn: Connection, rest: seq<Byte>)
    requires AllSent(ps) && conn.Valid() && conn.received + rest == SendAll(ps)
    ensures Lines(conn.delivered).done <= NonEmpty(ps)
    ensures conn.done == 0 && rest == [] ==> Lines(conn.delivered) == Assembly(NonEmpty(ps), [])
  {
    hide AllPlain, Lines, Feed, Messages, Payload, DataBytes, LengthSent, SendFrame, SendAll, NonEmpty, Windowed;
    var tail := conn.frml[..conn.done] + rest;
    assert conn.consumed + tail == SendAll(ps);
    ReceivedPrefix(ps, conn.consumed, tail);
  }

  // ---- when everything sent is received

  /** How many bytes there are from the last frame with a payload on; none if there is no such frame. */
  function Ending(ps: seq<seq<Byte>>): nat
    requires AllSent(ps)
  {
    if ps == [] then 0
    else if NonEmpty(ps[1..]) != [] then Ending(ps[1..])
    else if ps[0] == [] then 0
    else |SendAll(ps)|
  }

  lemma SendFirst(ps: seq<seq<Byte>>)
    requires AllSent(ps) && ps != []
    ensures SendAll(ps) == SendFrame(ps[0]) + SendAll(ps[1..])
    ensures NonEmpty(ps) == (if ps[0] == [] then [] else [ps[0]]) + NonEmpty(ps[1..])
  {
  }

  lemma SendNone()
    ensures SendAll([]) == [] && NonEmpty([]) == []
  {
  }

  /** What is sent of the first `i` payloads and of the others. */
  lemma {:induction false} SendSplit(ps: seq<seq<Byte>>, i: nat)
    requires AllSent(ps) && i <= |ps|
    ensures SendAll(ps) == SendAll(ps[..i]) + SendAll(ps[i..])
    ensures NonEmpty(ps) == NonEmpty(ps[..i]) + NonEmpty(ps[i..])
    decreases i
  {
    hide LengthSent, SendFrame, SendAll, NonEmpty;
    if i == 0 {
      SendNone();
      assert ps[..0] == [] && ps[0..] == ps;
    } else {
      SendFirst(ps);
      SendFirst(ps[..i]);
      assert ps[..i][1..] == ps[1..][..i - 1] && ps[1..][i - 1..] == ps[i..];
      SendSplit(ps[1..], i - 1);
    }
  }

  /** A frame boundary in what is sent is one between two payloads. */
  lemma {:induction false} Boundary(ps: seq<seq<Byte>>, c: seq<Byte>, t: seq<Byte>) returns (i: nat)
    requires AllSent(ps) && c + t == SendAll(ps) && Feed(IDLE, c) == Some(IDLE)
    ensures i <= |ps| && c == SendAll(ps[..i]) && t == SendAll(ps[i..])
    decreases |ps|
  {
    hide LengthSent, SendFrame, Feed;
    if c == [] {
      i := 0;
      assert ps[..0] == [] && ps[0..] == ps;
    } else {
      var w, rest := SendFrame(ps[0]), SendAll(ps[1..]);
      NoneWithin(ps[0], c, w + rest);
      var c' := c[|w|..];
      assert c == w + c' && c' + t == (c + t)[|w|..] && (w + rest)[|w|..] == rest;
      FrameAlone(ps[0], NO_MESSAGES);
      FeedConcat(IDLE, w, c');
      var k := Boundary(ps[1..], c', t);
      i := k + 1;
      assert ps[..i][1..] == ps[1..][..k] && ps[i..] == ps[1..][k..];
    }
  }

  /** Up to a frame boundary there is a whole frame, if there is anything. */
  lemma NoneWithin(p: seq<Byte>, c: seq<Byte>, w: seq<Byte>)
    requires |p| < 0x1_0000_0000_0000_0000 && LengthSent(|p|) && c != [] && c <= w && SendFrame(p) <= w
    requires Feed(IDLE, c) == Some(IDLE)
    ensures SendFrame(p) <= c
  {
    hide LengthSent, Feed;
    var h := SendHeader(|p|);
    SendHeaderExact(|p|);
    if |c| < |h + p| {
      assert c == (h + p)[..|c|];
      WithinFrame(h, p, |c|);
    }
  }

  /** The last frame with a payload is as far from the end wherever one begins before it. */
  lemma {:induction false} EndingSuffix(ps: seq<seq<Byte>>, i: nat)
    requires AllSent(ps) && i <= |ps| && NonEmpty(ps[i..]) != []
    ensures Ending(ps) == Ending(ps[i..])
    decreases i
  {
    hide LengthSent, SendFrame, SendAll;
    if i == 0 {
      assert ps[0..] == ps;
    } else {
      assert ps[1..][i - 1..] == ps[i..];
      SendSplit(ps[1..], i - 1);
      EndingSuffix(ps[1..], i - 1);
    }
  }

  lemma {:induction false} EndingBound(ps: seq<seq<Byte>>)
    requires AllSent(ps)
    ensures Ending(ps) <= |SendAll(ps)| && (Ending(ps) > 0 <==> NonEmpty(ps) != [])
    decreases |ps|
  {
    hide LengthSent;
    if ps != [] {
      EndingBound(ps[1..]);
    }
  }

  /** The last frame with a payload: what is sent from it on, and that only payloads before it come before. */
  lemma {:induction false} EndingStart(ps: seq<seq<Byte>>) returns (i: nat)
    requires AllSent(ps) && NonEmpty(ps) != []
    ensures i < |ps| && |SendAll(ps[i..])| == Ending(ps) && |NonEmpty(ps[..i])| < |NonEmpty(ps)|
    decreases |ps|
  {
    hide LengthSent, SendFrame, SendAll;
    if NonEmpty(ps[1..]) != [] {
      var k := EndingStart(ps[1..]);
      i := k + 1;
      assert ps[..i][1..] == ps[1..][..k] && ps[i..] == ps[1..][k..] && ps[..i][0] == ps[0];
    } else {
      i := 0;
      assert ps[0..] == ps && ps[..0] == [];
    }
  }

  /**
   * Everything sent is received, for every cut into reads, if from the last frame with a payload on
   * there are more than 14 bytes, or just 14 that are all there is.
   */
  lemma AllReceived(ps: seq<seq<Byte>>, conn: Connection)
    requires AllSent(ps) && conn.Valid() && conn.received == SendAll(ps)
    requires Ending(ps) == 0 || Ending(ps) > FRAME_HEADER || Ending(ps) == |SendAll(ps)| == FRAME_HEADER
    ensures Lines(conn.delivered) == Assembly(NonEmpty(ps), [])
  {
    hide AllPlain, Lines, Feed, Messages, Payload, DataBytes, LengthSent, SendFrame, SendAll, NonEmpty, Windowed, Ending;
    var t := conn.frml[..conn.done];
    assert conn.received + [] == conn.received;
    SendReceive(ps, conn, []);
    if conn.done > 0 {
      var i := Boundary(ps, conn.consumed, t);
      SendSplit(ps, i);
      assert conn.consumed + [] == conn.consumed;
      ReceivedPrefix(ps[..i], conn.consumed, []);
      EndingBound(ps[i..]);
      if NonEmpty(ps[i..]) != [] {
        EndingSuffix(ps, i);
        assert false;
      }
      assert NonEmpty(ps[..i]) + [] == NonEmpty(ps[..i]);
    }
  }

  /** What is consumed before the last frame with a payload does not bring everything. */
  lemma Short(ps: seq<seq<Byte>>, conn: Connection, i: nat)
    requires AllSent(ps) && conn.Valid() && conn.received == SendAll(ps) && i < |ps|
    requires |conn.consumed| <= |SendAll(ps[..i])| && |NonEmpty(ps[..i])| < |NonEmpty(ps)|
    ensures |Lines(conn.delivered).done| < |NonEmpty(ps)|
  {
    hide AllPlain, Lines, Feed, Messages, Payload, DataBytes, LengthSent, SendFrame, SendAll, NonEmpty, Windowed;
    SendSplit(ps, i);
    var a := SendAll(ps[..i]);
    assert conn.consumed <= conn.received && a <= conn.received;
    assert conn.consumed == conn.received[..|conn.consumed|] && a == conn.received[..|a|];
    assert conn.consumed + a[|conn.consumed|..] == a;
    ReceivedPrefix(ps[..i], conn.consumed, a[|conn.consumed|..]);
  }

  /** The place where the last frame with a payload starts is a frame boundary. */
  lemma StartsFrame(ps: seq<seq<Byte>>, i: nat)
    requires AllSent(ps) && i < |ps|
    ensures |SendAll(ps[..i])| <= |SendAll(ps)|
    ensures Feed(IDLE, SendAll(ps)[..|SendAll(ps[..i])|]) == Some(IDLE)
  {
    hide LengthSent, SendFrame, SendAll, NonEmpty, Feed;
    SendSplit(ps, i);
    SentStream(ps[..i], NO_MESSAGES);
    assert SendAll(ps)[..|SendAll(ps[..i])|] == SendAll(ps[..i]);
  }

  /** A frame without enough behind its start is not started. */
  lemma NotStarted(c: seq<Byte>, w: seq<Byte>, k: nat, from: nat)
    requires c <= w && Windowed(c, |w|, from) && k <= |w| && Feed(IDLE, w[..k]) == Some(IDLE)
    requires |w| < k + FRAME_HEADER || (k > from && |w| == k + FRAME_HEADER)
    ensures |c| <= k
  {
    hide Feed;
    var j := if k < |c| then k else |c|;
    assert c[..j] == w[..j];
  }

  /**
   * With fewer than 14 bytes from the last frame with a payload on, that payload is not handed on
   * before more comes, for no cut into reads.
   */
  lemma NeverReceived(ps: seq<seq<Byte>>, conn: Connection)
    requires AllSent(ps) && conn.Valid() && conn.received == SendAll(ps) && 0 < Ending(ps) < FRAME_HEADER
    ensures |Lines(conn.delivered).done| < |NonEmpty(ps)|
  {
    hide AllPlain, Lines, Feed, Messages, Payload, DataBytes, LengthSent, SendFrame, SendAll, NonEmpty, Ending;
    EndingBound(ps);
    var i := EndingStart(ps);
    var k := |SendAll(ps[..i])|;
    SendSplit(ps, i);
    StartsFrame(ps, i);
    NotStarted(conn.consumed, conn.received, k, |conn.consumed|);
    Short(ps, conn, i);
  }

  /** With just 14 bytes, behind other frames, it is not handed on if all is read in one go. */
  method ReadAtOnce(ps: seq<seq<Byte>>, conn: Connection, buf: array<Byte>) returns (r: Received)
    requires AllSent(ps) && Ending(ps) == FRAME_HEADER < |SendAll(ps)| < buf.Length
    requires conn.Valid() && conn.received == [] && buf != conn.frml
    modifies conn, conn.frml, buf
    ensures r.Got? && conn.Valid() && conn.received == SendAll(ps)
    ensures |Lines(conn.delivered).done| < |NonEmpty(ps)|
  {
    hide AllPlain, Lines, Feed, Messages, Payload, DataBytes, LengthSent, SendFrame, NonEmpty, Ending, AllSupported;
    SentStream(ps, NO_MESSAGES);
    EndingBound(ps);
    var i := EndingStart(ps);
    ghost var k := |SendAll(ps[..i])|;
    SendSplit(ps, i);
    StartsFrame(ps, i);
    assert [] + SendAll(ps) == SendAll(ps);
    ghost var items;
    r, items := conn.Recv(buf, buf.Length - 1, SendAll(ps));
    NotStarted(conn.consumed, conn.received, k, 0);
    Short(ps, conn, i);
  }
}
