/** Frames as section 5.2 of RFC 6455 draws them, from any sender, and what is read of them. */
module Framing {
  import opened Bits
  import opened Options
  import opened Frames
  import opened Sending
  import opened Ws

  /** Where the payload length stands: in the second byte, or in the two or eight bytes behind it. */
  datatype Form = Short | Medium | Long

  /**
   * A frame: final bit, the three reserved bits, opcode, masking key if there is one, form of the
   * length, and the payload as it is on the wire.
   */
  datatype Frame = Frame(fin: bool, rsv: nat, code: nat, key: Option<seq<Byte>>, form: Form, p: seq<Byte>) {
    predicate Valid() {
      && rsv < 8 && code < 16 && (key.Some? ==> |key.value| == 4)
      && |p| < match form { case Short => 126 case Medium => 0x1_0000 case Long => 0x1_0000_0000_0000_0000 }
    }

    function Header(): (h: seq<Byte>)
      requires Valid()
    {
      [(if fin then 128 else 0) + 16 * rsv + code,
       (if key.Some? then 128 else 0) + match form { case Short => |p| case Medium => 126 case Long => 127 }]
      + (match form { case Short => [] case Medium => Bytes(|p|, 2) case Long => Bytes(|p|, 8) })
      + if key.Some? then key.value else []
    }

    function Print(): seq<Byte>
      requires Valid()
    {
      Header() + p
    }
  }

  /** The `k` bytes of a number, the most significant one first. */
  function Bytes(n: nat, k: nat): (r: seq<Byte>)
    ensures |r| == k
    decreases k
  {
    if k == 0 then [] else Bytes(n / 256, k - 1) + [n % 256]
  }

  function Range(k: nat): nat {
    if k == 0 then 1 else 256 * Range(k - 1)
  }

  lemma {:induction false} BytesRead(n: nat, k: nat)
    requires n < Range(k)
    ensures BigEndian(Bytes(n, k)) == n
    decreases k
  {
    if k > 0 {
      BytesRead(n / 256, k - 1);
      BigEndianSnoc(Bytes(n / 256, k - 1), n % 256);
    }
  }

  lemma Ranges()
    ensures Range(2) == 0x1_0000 && Range(8) == 0x1_0000_0000_0000_0000
  {
    assert Range(4) == 0x1_0000_0000;
  }

  /** All parts of a header are read as they were written. */
  lemma HeaderRead(f: Frame)
    requires f.Valid()
    ensures var h := f.Header();
      && HeaderComplete(h) && HeaderLength(h) == |h| && PayloadLength(h) == |f.p|
      && Opcode(h) == f.code && Fin(h) == f.fin
  {
    hide BigEndian, Bytes, Range;
    var h, n := f.Header(), |f.p|;
    Ranges();
    match f.form
    case Short =>
    case Medium =>
      BytesRead(n, 2);
      assert h[2..4] == Bytes(n, 2);
    case Long =>
      BytesRead(n, 8);
      assert h[2..10] == Bytes(n, 8);
  }

  predicate ValidFrames(fs: seq<Frame>) {
    forall i :: 0 <= i < |fs| ==> fs[i].Valid()
  }

  function PrintAll(fs: seq<Frame>): seq<Byte>
    requires ValidFrames(fs)
  {
    if fs == [] then [] else fs[0].Print() + PrintAll(fs[1..])
  }

  /** The payloads of all frames that are not pongs. */
  function Payloads(fs: seq<Frame>): seq<Byte> {
    if fs == [] then [] else (if fs[0].code == 10 then [] else fs[0].p) + Payloads(fs[1..])
  }

  /** A frame adds its payload to a message, if it is no pong. */
  function Added(cur: seq<Byte>, f: Frame): seq<Byte> {
    if f.code == 10 then cur else cur + f.p
  }

  /** A final data frame ends a message, and so does a ping or close. */
  predicate Ends(f: Frame) {
    f.code in {8, 9} || (f.fin && f.code != 10)
  }

  /** The messages, `cur` being there of the first; empty ones are left out. */
  function Texts(cur: seq<Byte>, fs: seq<Frame>): seq<seq<Byte>>
    decreases |fs|
  {
    if fs == [] then []
    else
      var t := Added(cur, fs[0]);
      if !Ends(fs[0]) then Texts(t, fs[1..]) else (if t == [] then [] else [t]) + Texts([], fs[1..])
  }

  /** What there is of a message behind the last one ended. */
  function Open(cur: seq<Byte>, fs: seq<Frame>): seq<Byte>
    decreases |fs|
  {
    if fs == [] then cur else Open(if Ends(fs[0]) then [] else Added(cur, fs[0]), fs[1..])
  }

  predicate OnlySupported(fs: seq<Frame>) {
    forall i :: 0 <= i < |fs| ==> fs[i].code in {0, 1, 2, 8, 9, 10}
  }

  predicate Ordinary(f: Frame) {
    f.code in {0, 1, 2, 10} || (f.code in {8, 9} && f.p == [])
  }

  /** Data frames, pongs, and pings and closes without payload. */
  predicate OnlyOrdinary(fs: seq<Frame>) {
    forall i :: 0 <= i < |fs| ==> Ordinary(fs[i])
  }

  /** Messages and what there is of the next one, with a further frame. */
  function With(a: Assembly, f: Frame): Assembly {
    var b := Assembly(a.done, Added(a.cur, f));
    if Ends(f) then b.Cut() else b
  }

  /** A whole frame and nothing else. */
  lemma FrameRead(f: Frame, a: Assembly)
    requires f.Valid()
    ensures var w := f.Print();
      && Feed(IDLE, w) == Some(IDLE) && Payload(IDLE, w) == (if f.code == 10 then [] else f.p)
      && (AllSupported(IDLE, w) <==> f.code in {0, 1, 2, 8, 9, 10}) && (AllPlain(IDLE, w) <==> Ordinary(f))
      && Messages(a, IDLE, w) == With(a, f)
  {
    hide HeaderLength, PayloadLength, Opcode, Fin, HeaderComplete, Frame.Header;
    var h, p := f.Header(), f.p;
    HeaderRead(f);
    HeaderOnly(h);
    HeaderEnds(h);
    var m := Started(h);
    HeaderPayload(h);
    FeedConcat(IDLE, h, p);
    MessagesConcat(a, IDLE, h, p);
    if p == [] {
      assert h + p == h && a.Add(p) == a && a.cur + p == a.cur;
    } else {
      WholePayload(m, p, a);
    }
  }

  lemma HeaderPayload(h: seq<Byte>)
    requires HeaderComplete(h) && |h| == HeaderLength(h)
    ensures Payload(IDLE, h) == []
  {
    assert h[HeaderLength(h)..] == [];
    NothingFed(Started(h));
  }

  lemma WholePayload(m: Mode, p: seq<Byte>, a: Assembly)
    requires m.togo == |p| > 0
    ensures Feed(m, p) == Some(IDLE) && Payload(m, p) == (if Delivers(m.code) then p else [])
    ensures AllSupported(m, p) && AllPlain(m, p)
    ensures Messages(a, m, p) == Ended(Handing(a, m.code, p), IDLE, m.code, m.fin)
  {
    assert p[..|p|] == p && p[|p|..] == [];
    NothingFed(IDLE);
    PayloadFirst(m, p);
    assert Messages(a, m, p) == Messages(Ended(Handing(a, m.code, p), IDLE, m.code, m.fin), IDLE, p[|p|..]);
    assert AllPlain(m, p) == AllPlain(IDLE, p[|p|..]);
  }

  /**
   * Reading inverts printing for every list of frames: they are taken apart at their ends, their
   * payloads come out but for those of pongs, and their messages are the payloads up to final frames.
   */
  lemma {:induction false} FramesRead(fs: seq<Frame>, a: Assembly)
    requires ValidFrames(fs)
    ensures var w := PrintAll(fs);
      && Feed(IDLE, w) == Some(IDLE) && Payload(IDLE, w) == Payloads(fs)
      && (AllSupported(IDLE, w) <==> OnlySupported(fs)) && (AllPlain(IDLE, w) <==> OnlyOrdinary(fs))
      && Messages(a, IDLE, w) == Assembly(a.done + Texts(a.cur, fs), Open(a.cur, fs))
    decreases |fs|
  {
    hide Feed, Payload, AllSupported, AllPlain, Messages, Frame.Print;
    if fs == [] {
      NothingFed(IDLE);
      NoFrames(a);
      assert a.done + [] == a.done;
    } else {
      var f := fs[0];
      FrameRead(f, a);
      FeedConcat(IDLE, f.Print(), PrintAll(fs[1..]));
      MessagesConcat(a, IDLE, f.Print(), PrintAll(fs[1..]));
      FramesRead(fs[1..], With(a, f));
      Told(fs, a);
      assert fs == [f] + fs[1..];
    }
  }

  lemma Told(fs: seq<Frame>, a: Assembly)
    requires fs != []
    ensures var b := With(a, fs[0]);
      (b.done + Texts(b.cur, fs[1..]) == a.done + Texts(a.cur, fs) && Open(b.cur, fs[1..]) == Open(a.cur, fs))
  {
    hide Added, Ends;
    var t, more := Added(a.cur, fs[0]), Texts([], fs[1..]);
    if Ends(fs[0]) {
      assert Texts(a.cur, fs) == (if t == [] then [] else [t]) + more;
      if t == [] {
        assert [] + more == more;
      } else {
        assert a.done + [t] + more == a.done + ([t] + more);
      }
    }
  }

  // ---- what is sent

  lemma TwoBytes(n: nat, k: nat)
    ensures Bytes(n, k + 2) == Bytes(n / 65536, k) + WordBytes(n % 65536)
  {
    assert n / 256 / 256 == n / 65536;
    assert Bytes(n, k + 2) == Bytes(n / 65536, k) + [n / 256 % 256] + [n % 256];
    assert n % 65536 / 256 == n / 256 % 256 && n % 65536 % 256 == n % 256;
  }

  lemma EightBytes(n: nat)
    requires n < 0x1_0000_0000_0000_0000
    ensures Bytes(n, 8) == WordBytes(Word(n, 0)) + WordBytes(Word(n, 1)) + WordBytes(Word(n, 2)) + WordBytes(Word(n, 3))
  {
    hide Bytes, WordBytes;
    var a, b, c := n / 65536, n / 0x1_0000_0000, n / 0x1_0000_0000_0000;
    assert a / 65536 == b && b / 65536 == c && c / 65536 == 0 && c % 65536 == c;
    TwoBytes(n, 6);
    TwoBytes(a, 4);
    TwoBytes(b, 2);
    TwoBytes(c, 0);
    assert Bytes(0, 0) == [];
  }

  lemma SameWords(a: nat, b: nat, c: nat, d: nat)
    requires a < 65536 && b < 65536 && c < 65536 && d < 65536
    ensures (WordBytes(d) + WordBytes(c) + WordBytes(b) + WordBytes(a)
             == WordBytes(a) + WordBytes(b) + WordBytes(c) + WordBytes(d)) <==> a == d && b == c
  {
    var v := WordBytes(d) + WordBytes(c) + WordBytes(b) + WordBytes(a);
    var w := WordBytes(a) + WordBytes(b) + WordBytes(c) + WordBytes(d);
    if v == w {
      assert v[0] == w[0] && v[1] == w[1] && v[2] == w[2] && v[3] == w[3];
    }
  }

  function FormOf(n: nat): Form {
    if n < 126 then Short else if n < 0x1_0000 then Medium else Long
  }

  /**
   * What is sent for a payload is a final text frame without reserved bits and with a masking key of
   * zero, exactly if a receiver understands its length.
   */
  lemma SendShown(p: seq<Byte>)
    requires |p| < 0x1_0000_0000_0000_0000
    ensures (SendFrame(p) == Frame(true, 0, 1, Some([0, 0, 0, 0]), FormOf(|p|), p).Print()) <==> LengthSent(|p|)
  {
    hide WordBytes, Word, Bytes;
    var n, f := |p|, Frame(true, 0, 1, Some([0, 0, 0, 0]), FormOf(|p|), p);
    if n < 126 {
    } else if n < 65536 {
      TwoBytes(n, 0);
      assert Bytes(n / 65536, 0) == [] by { BytesNone(n / 65536); }
      assert Bytes(n, 2) == WordBytes(n);
    } else {
      var a, b, c, d := Word(n, 0), Word(n, 1), Word(n, 2), Word(n, 3);
      EightBytes(n);
      SameWords(a, b, c, d);
      SameMiddle(SendHeader(n), f.Header(), p, [0, 0, 0, 0], WordBytes(d) + WordBytes(c) + WordBytes(b) + WordBytes(a),
                 WordBytes(a) + WordBytes(b) + WordBytes(c) + WordBytes(d));
    }
  }

  lemma BytesNone(n: nat)
    ensures Bytes(n, 0) == []
  {
  }

  /** Two headers of the same length differ just if their lengths do. */
  lemma SameMiddle(g: seq<Byte>, h: seq<Byte>, p: seq<Byte>, key: seq<Byte>, v: seq<Byte>, w: seq<Byte>)
    requires g == [129, 255] + v + key && h == [129, 255] + w + key && |v| == |w|
    ensures g + p == h + p <==> v == w
  {
    assert g[2..2 + |v|] == v && h[2..2 + |w|] == w;
    if g + p == h + p {
      assert (g + p)[..|g|] == g && (h + p)[..|h|] == h;
    }
  }

  // ---- what is received

  /**
   * Every connection that receives such frames hands on their payloads, however they are cut into
   * reads: so far a first part of them, and all once nothing is stashed or outstanding. If the frames
   * are ordinary ones, the same holds of the messages and the lines handed on.
   */
  lemma FramesReceived(fs: seq<Frame>, conn: Connection, rest: seq<Byte>)
    requires ValidFrames(fs) && conn.Valid() && conn.received + rest == PrintAll(fs)
    ensures DataBytes(conn.delivered) <= Payloads(fs)
    ensures OnlyOrdinary(fs) ==> Lines(conn.delivered).done <= Texts([], fs)
    ensures conn.done == 0 && rest == [] ==> DataBytes(conn.delivered) == Payloads(fs)
    ensures conn.done == 0 && rest == [] && OnlyOrdinary(fs) ==>
      Lines(conn.delivered) == Assembly(Texts([], fs), Open([], fs))
  {
    hide AllPlain, Lines, Feed, Messages, Payload, DataBytes, PrintAll, Payloads, Texts, Open, OnlyOrdinary, Windowed;
    hide AllSupported;
    var c, tail := conn.consumed, conn.frml[..conn.done] + rest;
    assert c + tail == PrintAll(fs);
    FramesRead(fs, NO_MESSAGES);
    FeedConcat(IDLE, c, tail);
    MessagesConcat(NO_MESSAGES, IDLE, c, tail);
    MessagesGrow(Messages(NO_MESSAGES, IDLE, c), Feed(IDLE, c).value, tail);
    assert [] + Texts([], fs) == Texts([], fs);
    if conn.done == 0 && rest == [] {
      assert c + tail == c;
    }
  }
}
