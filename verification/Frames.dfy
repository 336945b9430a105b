/** The frames of section 5.2 of RFC 6455 in a byte stream, read as a whole. */
module Frames {
  import opened Bits
  import opened Options

  /** Bytes that stand for a frame header, of which the parts are read. */
  function Fin(w: seq<Byte>): bool
    requires |w| >= 1
  {
    w[0] / 128 == 1
  }

  function Opcode(w: seq<Byte>): nat
    requires |w| >= 1
  {
    w[0] % 16
  }

  /** The number of bytes of the header that starts with `w`: with length and masking key. */
  function HeaderLength(w: seq<Byte>): (n: nat)
    requires |w| >= 2
    ensures 2 <= n <= 14
  {
    2 + (if w[1] % 128 == 126 then 2 else if w[1] % 128 == 127 then 8 else 0) + (if w[1] / 128 == 1 then 4 else 0)
  }

  function BigEndian(w: seq<Byte>): nat {
    if w == [] then 0 else 256 * BigEndian(w[..|w| - 1]) + w[|w| - 1]
  }

  predicate HeaderComplete(w: seq<Byte>) {
    |w| >= 2 && |w| >= HeaderLength(w)
  }

  function PayloadLength(w: seq<Byte>): nat
    requires HeaderComplete(w)
  {
    if w[1] % 128 == 126 then BigEndian(w[2..4])
    else if w[1] % 128 == 127 then BigEndian(w[2..10])
    else w[1] % 128
  }

  const PING: nat := 9
  const PONG: nat := 10
  const CLOSE: nat := 8

  predicate Supported(code: nat) {
    code <= 2 || 8 <= code <= 10
  }

  /** Whether the payload of such frames is handed on; that of a pong is not. */
  predicate Delivers(code: nat) {
    code != PONG
  }

  /** Where in a frame the stream is: bytes of payload still to come, and of which kind. */
  datatype Mode = Mode(togo: nat, code: nat, fin: bool)

  const IDLE: Mode := Mode(0, 0, false)

  function Started(w: seq<Byte>): Mode
    requires HeaderComplete(w)
  {
    if PayloadLength(w) == 0 then IDLE else Mode(PayloadLength(w), Opcode(w), Fin(w))
  }

  function Take(m: Mode, n: nat): Mode
    requires n <= m.togo
  {
    if n == m.togo then IDLE else m.(togo := m.togo - n)
  }

  /** The place in a frame behind the bytes `c`; nothing if they end within a header. */
  function Feed(m: Mode, c: seq<Byte>): Option<Mode>
    decreases |c|
  {
    if c == [] then Some(m)
    else if m.togo > 0 then
      var n := Min(m.togo, |c|);
      Feed(Take(m, n), c[n..])
    else if !HeaderComplete(c) then None
    else Feed(Started(c), c[HeaderLength(c)..])
  }

  /** The payload bytes handed on from the bytes `c`. */
  function Payload(m: Mode, c: seq<Byte>): seq<Byte>
    decreases |c|
  {
    if c == [] then []
    else if m.togo > 0 then
      var n := Min(m.togo, |c|);
      (if Delivers(m.code) then c[..n] else []) + Payload(Take(m, n), c[n..])
    else if !HeaderComplete(c) then []
    else Payload(Started(c), c[HeaderLength(c)..])
  }

  /** Every frame that starts in `c` is of a supported kind. */
  predicate AllSupported(m: Mode, c: seq<Byte>)
    decreases |c|
  {
    if c == [] then true
    else if m.togo > 0 then
      var n := Min(m.togo, |c|);
      AllSupported(Take(m, n), c[n..])
    else if !HeaderComplete(c) then true
    else Supported(Opcode(c)) && AllSupported(Started(c), c[HeaderLength(c)..])
  }

  /** Bytes that run into the payload in a mode and what follows them can be taken apart. */
  lemma HeaderPrefix(a: seq<Byte>, b: seq<Byte>)
    requires HeaderComplete(a)
    ensures HeaderComplete(a + b) && HeaderLength(a + b) == HeaderLength(a)
    ensures PayloadLength(a + b) == PayloadLength(a) && Opcode(a + b) == Opcode(a) && Fin(a + b) == Fin(a)
    ensures (a + b)[HeaderLength(a)..] == a[HeaderLength(a)..] + b
  {
    hide BigEndian;
    var n := HeaderLength(a);
    assert (a + b)[0] == a[0] && (a + b)[1] == a[1];
    assert HeaderLength(a + b) == n;
    if a[1] % 128 == 126 {
      assert (a + b)[2..4] == a[2..4];
    } else if a[1] % 128 == 127 {
      assert (a + b)[2..10] == a[2..10];
    }
    BehindFront(a, b, n);
  }

  lemma BehindFront(a: seq<Byte>, b: seq<Byte>, n: nat)
    requires n <= |a|
    ensures (a + b)[n..] == a[n..] + b
  {
  }

  /** The first step within a payload. */
  lemma PayloadFirst(m: Mode, c: seq<Byte>)
    requires m.togo > 0 && c != []
    ensures var n := Min(m.togo, |c|);
      && Feed(m, c) == Feed(Take(m, n), c[n..]) && AllSupported(m, c) == AllSupported(Take(m, n), c[n..])
      && Payload(m, c) == (if Delivers(m.code) then c[..n] else []) + Payload(Take(m, n), c[n..])
  {
    hide HeaderComplete, HeaderLength, PayloadLength, Opcode, Fin;
  }

  lemma NothingFed(m: Mode)
    ensures Feed(m, []) == Some(m) && AllSupported(m, []) && Payload(m, []) == []
  {
  }

  /** A first part of a payload and nothing else. */
  lemma FeedPart(m: Mode, a: seq<Byte>)
    requires 0 < |a| < m.togo
    ensures Feed(m, a) == Some(Take(m, |a|)) && AllSupported(m, a)
    ensures Payload(m, a) == if Delivers(m.code) then a else []
  {
    hide Feed, Payload, AllSupported;
    PayloadFirst(m, a);
    NothingFed(Take(m, |a|));
    assert a[|a|..] == [] && a[..|a|] == a;
  }

  /** A payload cut in its middle. */
  lemma FeedTake(m: Mode, a: seq<Byte>, b: seq<Byte>)
    requires 0 < |a| < m.togo
    ensures Feed(m, a) == Some(Take(m, |a|))
    ensures Feed(m, a + b) == Feed(Take(m, |a|), b)
    ensures Payload(m, a + b) == Payload(m, a) + Payload(Take(m, |a|), b)
    ensures AllSupported(m, a + b) <==> AllSupported(m, a) && AllSupported(Take(m, |a|), b)
  {
    hide Feed, Payload, AllSupported;
    FeedPart(m, a);
    var m' := Take(m, |a|);
    if b == [] {
      NothingFed(m');
      assert a + b == a;
    } else {
      PayloadFirst(m, a + b);
      PayloadFirst(m', b);
      var n, k := Min(m.togo, |a + b|), Min(m'.togo, |b|);
      assert n == |a| + k && Take(m, n) == Take(m', k);
      assert (a + b)[..n] == a + b[..k] && (a + b)[n..] == b[k..];
      if Delivers(m.code) {
        assert a + b[..k] + Payload(Take(m', k), b[k..]) == a + (b[..k] + Payload(Take(m', k), b[k..]));
      }
    }
  }

  /** The first step at a header. */
  lemma HeaderFirst(m: Mode, c: seq<Byte>)
    requires m.togo == 0 && HeaderComplete(c)
    ensures Feed(m, c) == Feed(Started(c), c[HeaderLength(c)..])
    ensures Payload(m, c) == Payload(Started(c), c[HeaderLength(c)..])
    ensures AllSupported(m, c) <==> Supported(Opcode(c)) && AllSupported(Started(c), c[HeaderLength(c)..])
  {
    hide HeaderLength, PayloadLength, Opcode, Fin, Supported;
  }

  lemma HeaderThere(m: Mode, c: seq<Byte>)
    requires m.togo == 0 && c != [] && Feed(m, c).Some?
    ensures HeaderComplete(c) && 2 <= |c| && HeaderLength(c) <= |c|
  {
    hide HeaderLength, PayloadLength, Opcode, Fin;
  }

  lemma Associate(a: seq<Byte>, b: seq<Byte>, c: seq<Byte>)
    ensures a + (b + c) == a + b + c && [] + c == c
  {
  }

  /** The stream can be cut between any two bytes that are not within a header. */
  lemma {:induction false} FeedConcat(m: Mode, a: seq<Byte>, b: seq<Byte>)
    requires Feed(m, a).Some?
    ensures Feed(m, a + b) == Feed(Feed(m, a).value, b)
    ensures Payload(m, a + b) == Payload(m, a) + Payload(Feed(m, a).value, b)
    ensures AllSupported(m, a + b) <==> AllSupported(m, a) && AllSupported(Feed(m, a).value, b)
    decreases |a|
  {
    hide HeaderLength, PayloadLength, Opcode, Fin, HeaderComplete, Supported, Feed, Payload, AllSupported;
    if a == [] {
      NothingFed(m);
      assert a + b == b;
      Associate([], [], Payload(m, b));
    } else if m.togo > 0 {
      var n := Min(m.togo, |a|);
      if n == |a| && n < m.togo {
        FeedTake(m, a, b);
      } else {
        PayloadFirst(m, a);
        PayloadFirst(m, a + b);
        assert (a + b)[..n] == a[..n] && (a + b)[n..] == a[n..] + b;
        assert Min(m.togo, |a + b|) == n;
        FeedConcat(Take(m, n), a[n..], b);
        Associate(if Delivers(m.code) then a[..n] else [], Payload(Take(m, n), a[n..]), Payload(Feed(m, a).value, b));
      }
    } else {
      HeaderThere(m, a);
      HeaderPrefix(a, b);
      HeaderFirst(m, a);
      HeaderFirst(m, a + b);
      FeedConcat(Started(a), a[HeaderLength(a)..], b);
    }
  }

  // ---- messages

  /** Complete messages and the one being received. */
  datatype Assembly = Assembly(done: seq<seq<Byte>>, cur: seq<Byte>) {
    function Add(s: seq<Byte>): Assembly {
      Assembly(done, cur + s)
    }

    /** Ends the message being received; an empty one leaves no trace. */
    function Cut(): Assembly {
      if cur == [] then this else Assembly(done + [cur], [])
    }
  }

  /** Payload of a frame is added to the message; that of a pong is not. */
  function Handing(a: Assembly, code: nat, p: seq<Byte>): Assembly {
    if Delivers(code) then a.Add(p) else a
  }

  /** Whether a frame ends a message: a final one of data, a ping or a close does, a pong does not. */
  predicate Cuts(code: nat, fin: bool) {
    code == PING || code == CLOSE || (fin && code != PONG)
  }

  /** The messages of the bytes `c`: payloads joined up to the frame that ends a message. */
  function Messages(a: Assembly, m: Mode, c: seq<Byte>): Assembly
    decreases |c|
  {
    if c == [] then a
    else if m.togo > 0 then
      var n := Min(m.togo, |c|);
      Messages(Ended(Handing(a, m.code, c[..n]), Take(m, n), m.code, m.fin), Take(m, n), c[n..])
    else if !HeaderComplete(c) then a
    else Messages(Ended(a, Started(c), Opcode(c), Fin(c)), Started(c), c[HeaderLength(c)..])
  }

  function Ended(a: Assembly, next: Mode, code: nat, fin: bool): Assembly {
    if next.togo == 0 && Cuts(code, fin) then a.Cut() else a
  }

  /** A continuation, text or binary frame, a pong, or a ping or close without payload. */
  predicate Plain(code: nat, n: nat) {
    code <= 2 || code == PONG || (n == 0 && (code == PING || code == CLOSE))
  }

  /** Every frame that starts in `c` is a plain one. */
  predicate AllPlain(m: Mode, c: seq<Byte>)
    decreases |c|
  {
    if c == [] then true
    else if m.togo > 0 then
      var n := Min(m.togo, |c|);
      AllPlain(Take(m, n), c[n..])
    else if !HeaderComplete(c) then true
    else Plain(Opcode(c), PayloadLength(c)) && AllPlain(Started(c), c[HeaderLength(c)..])
  }

  lemma {:induction false} MessagesConcat(x: Assembly, m: Mode, a: seq<Byte>, b: seq<Byte>)
    requires Feed(m, a).Some?
    ensures Messages(x, m, a + b) == Messages(Messages(x, m, a), Feed(m, a).value, b)
    ensures AllPlain(m, a + b) <==> AllPlain(m, a) && AllPlain(Feed(m, a).value, b)
    decreases |a|
  {
    hide HeaderLength, PayloadLength, Opcode, Fin;
    if a == [] {
      assert a + b == b;
    } else if m.togo > 0 {
      var n := Min(m.togo, |a|);
      if n == |a| && n < m.togo {
        MessagesTake(x, m, a, b);
      } else {
        assert (a + b)[..n] == a[..n] && (a + b)[n..] == a[n..] + b;
        assert Min(m.togo, |a + b|) == n;
        MessagesConcat(Ended(Handing(x, m.code, a[..n]), Take(m, n), m.code, m.fin), Take(m, n), a[n..], b);
      }
    } else {
      HeaderPrefix(a, b);
      MessagesConcat(Ended(x, Started(a), Opcode(a), Fin(a)), Started(a), a[HeaderLength(a)..], b);
    }
  }

  lemma MessagesTake(x: Assembly, m: Mode, a: seq<Byte>, b: seq<Byte>)
    requires 0 < |a| < m.togo
    ensures Feed(m, a) == Some(Take(m, |a|))
    ensures Messages(x, m, a) == Handing(x, m.code, a)
    ensures Messages(x, m, a + b) == Messages(Handing(x, m.code, a), Take(m, |a|), b)
    ensures AllPlain(m, a + b) <==> AllPlain(m, a) && AllPlain(Take(m, |a|), b)
  {
    hide Fin, Started, Payload, Supported, Cuts;
    var m' := Take(m, |a|);
    FeedPart(m, a);
    assert a[|a|..] == [] && a[..|a|] == a;
    assert Messages(x, m, a) == Messages(Handing(x, m.code, a), m', a[|a|..]);
    assert AllPlain(m, a) == AllPlain(m', a[|a|..]);
    if b == [] {
      assert a + b == a;
    } else {
      var n, k := Min(m.togo, |a + b|), Min(m'.togo, |b|);
      assert n == |a| + k;
      assert (a + b)[..n] == a + b[..k] && (a + b)[n..] == b[k..];
      assert Take(m, n) == Take(m', k);
      assert Handing(x, m.code, a + b[..k]) == Handing(Handing(x, m.code, a), m.code, b[..k]);
    }
  }
}
