/** Receiving and sending of WebSocket frames, src/ws.c. */
module Ws {
  import opened Bits
  import opened Options
  import opened Frames

  const FRAME_HEADER: nat := 14  // the largest header, and what must be there to unpack one
  const LINE_END: Byte := 10

  /** What a read hands on: bytes of payload, and the newlines put between messages. */
  datatype Item = Data(b: Byte) | Separator

  function Datas(s: seq<Byte>): (r: seq<Item>)
    ensures |r| == |s|
  {
    seq(|s|, i requires 0 <= i < |s| => Data(s[i]))
  }

  /** The items as they stand in the buffer. */
  function Rendered(items: seq<Item>): (r: seq<Byte>)
    ensures |r| == |items|
  {
    seq(|items|, i requires 0 <= i < |items| => if items[i].Data? then items[i].b else LINE_END)
  }

  /** The payload bytes among the items. */
  function DataBytes(items: seq<Item>): seq<Byte> {
    if items == [] then []
    else
      var last := items[|items| - 1];
      DataBytes(items[..|items| - 1]) + (if last.Data? then [last.b] else [])
  }

  /** Messages as a reader of the items sees them: what stands between separators. */
  function Lines(items: seq<Item>): Assembly {
    if items == [] then Assembly([], [])
    else
      var last := items[|items| - 1];
      var a := Lines(items[..|items| - 1]);
      if last.Data? then a.Add([last.b]) else a.Cut()
  }

  lemma DatasSnoc(s: seq<Byte>)
    requires s != []
    ensures Datas(s) == Datas(s[..|s| - 1]) + [Data(s[|s| - 1])]
  {
  }

  lemma {:induction false} AppendDatas(items: seq<Item>, s: seq<Byte>)
    ensures DataBytes(items + Datas(s)) == DataBytes(items) + s
    ensures Lines(items + Datas(s)) == Lines(items).Add(s)
    decreases |s|
  {
    hide Lines, DataBytes;
    if s == [] {
      assert items + Datas(s) == items;
      assert Lines(items).Add(s) == Lines(items);
    } else {
      hide Datas;
      var n := |s| - 1;
      var p := items + Datas(s[..n]);
      AppendDatas(items, s[..n]);
      DatasSnoc(s);
      assert items + (Datas(s[..n]) + [Data(s[n])]) == p + [Data(s[n])];
      AppendData(p, s[n]);
      assert s == s[..n] + [s[n]];
      AddTwice(Lines(items), s[..n], [s[n]]);
    }
  }

  lemma AddTwice(a: Assembly, s: seq<Byte>, t: seq<Byte>)
    ensures a.Add(s).Add(t) == a.Add(s + t)
  {
    assert a.cur + s + t == a.cur + (s + t);
  }

  lemma AppendData(items: seq<Item>, b: Byte)
    ensures DataBytes(items + [Data(b)]) == DataBytes(items) + [b]
    ensures Lines(items + [Data(b)]) == Lines(items).Add([b])
  {
    assert (items + [Data(b)])[..|items|] == items;
  }

  lemma AppendSeparator(items: seq<Item>)
    ensures DataBytes(items + [Separator]) == DataBytes(items)
    ensures Lines(items + [Separator]) == Lines(items).Cut()
    ensures Rendered(items + [Separator]) == Rendered(items) + [LINE_END]
  {
    assert (items + [Separator])[..|items|] == items;
  }

  lemma RenderedDatas(s: seq<Byte>)
    ensures Rendered(Datas(s)) == s
  {
  }

  lemma {:induction false} RenderedConcat(a: seq<Item>, b: seq<Item>)
    ensures Rendered(a + b) == Rendered(a) + Rendered(b)
  {
  }

  datatype Received = Got(n: nat) | Failed | Aborted

  /** Moves `n` bytes from `from` down to `to`; the ranges may overlap. */
  method Move(buf: array<Byte>, to: nat, from: nat, n: nat)
    requires to <= from && from + n <= buf.Length
    modifies buf
    ensures buf[..to + n] == old(buf[..to]) + old(buf[from..from + n])
    ensures forall i :: from + n <= i < buf.Length ==> buf[i] == old(buf[i])
  {
    forall i | 0 <= i < n {
      buf[to + i] := buf[from + i];
    }
  }

  // ---- what one frame or part of it does to the streams

  const NO_MESSAGES: Assembly := Assembly([], [])

  /**
   * The state flag after payload of a frame: a newline is due behind whatever there is of a ping or
   * close, and behind the end of any other final frame but a pong.
   */
  function Due(code: nat, fin: bool, togo: nat): (r: nat)
    ensures r <= 1 && (r == 1 <==> code in {8, 9} || (fin && togo == 0 && code != 10))
  {
    if code == PONG then 0
    else if code == PING || code == CLOSE || (togo == 0 && fin) then 1
    else 0
  }

  /** The delivered items `d` are the payload of the consumed bytes `c`, up to a newline due. */
  ghost predicate Consistent(c: seq<Byte>, d: seq<Item>, m: Mode, state: nat) {
    && Feed(IDLE, c) == Some(m) && DataBytes(d) == Payload(IDLE, c)
    && (AllPlain(IDLE, c) ==>
        (if state == 1 then Lines(d).Cut() else Lines(d)) == Messages(NO_MESSAGES, IDLE, c))
  }

  /** No newline is due any more. */
  ghost predicate Exact(c: seq<Byte>, d: seq<Item>) {
    AllPlain(IDLE, c) ==> Lines(d) == Messages(NO_MESSAGES, IDLE, c)
  }

  function Handed(code: nat, p: seq<Byte>): seq<Item> {
    if Delivers(code) then Datas(p) else []
  }

  function Owed(state: nat): seq<Item> {
    if state == 1 then [Separator] else []
  }

  /** Putting out the newline that is due. */
  lemma PayOwed(c: seq<Byte>, d: seq<Item>, m: Mode, state: nat)
    requires Consistent(c, d, m, state) && state <= 1
    ensures Consistent(c, d + Owed(state), m, 0) && Consistent(c, d + Owed(state), m, state)
    ensures Exact(c, d + Owed(state)) && (state == 1 ==> Lines(d + Owed(state)).cur == [])
  {
    if state == 1 {
      AppendSeparator(d);
    } else {
      assert d + [] == d;
    }
  }

  /** More payload of a frame that was already under way. */
  lemma PayloadStep(c: seq<Byte>, d: seq<Item>, m: Mode, p: seq<Byte>)
    requires Feed(IDLE, c) == Some(m) && DataBytes(d) == Payload(IDLE, c) && Exact(c, d)
    requires 0 < |p| <= m.togo
    ensures Consistent(c + p, d + Handed(m.code, p), Take(m, |p|), Due(m.code, m.fin, m.togo - |p|))
  {
    FeedConcat(IDLE, c, p);
    MessagesConcat(NO_MESSAGES, IDLE, c, p);
    assert p[..|p|] == p && p[|p|..] == [];
    var m' := Take(m, |p|);
    assert Feed(m, p) == Feed(m', []) == Some(m');
    assert Payload(m', []) == [];
    if Delivers(m.code) {
      AppendDatas(d, p);
      assert Payload(m, p) == p + Payload(m', []) == p;
    } else {
      assert d + [] == d;
      assert Payload(m, p) == [] + Payload(m', []) == [];
    }
    if AllPlain(IDLE, c + p) {
      var a := Messages(NO_MESSAGES, IDLE, c);
      assert Messages(a, m, p) == Messages(Ended(Handing(a, m.code, p), m', m.code, m.fin), m', []);
      PlainCode(c, m);
    }
  }

  /** A plain frame with payload carries data or is a pong. */
  predicate PlainMode(m: Mode) {
    m.code <= 2 || m.code == PONG
  }

  /** Within a frame of a stream of plain frames the code is that of data or of a pong. */
  lemma {:induction false} PlainCode(c: seq<Byte>, m: Mode)
    requires Feed(IDLE, c) == Some(m) && AllPlain(IDLE, c)
    ensures PlainMode(m)
  {
    PlainCodeFrom(IDLE, c);
  }

  lemma {:induction false} PlainCodeFrom(m: Mode, c: seq<Byte>)
    requires Feed(m, c).Some? && AllPlain(m, c) && PlainMode(m)
    ensures PlainMode(Feed(m, c).value)
    decreases |c|
  {
    if c != [] {
      if m.togo > 0 {
        var n := Min(m.togo, |c|);
        PlainCodeFrom(Take(m, n), c[n..]);
      } else {
        PlainCodeFrom(Started(c), c[HeaderLength(c)..]);
      }
    }
  }

  /** A whole header and the payload behind it, or a first part of that. */
  lemma FrameStep(c: seq<Byte>, d: seq<Item>, state: nat, h: seq<Byte>, p: seq<Byte>)
    requires Consistent(c, d, IDLE, state) && state <= 1
    requires HeaderComplete(h) && |h| == HeaderLength(h) && |p| <= PayloadLength(h)
    ensures var m := Mode(PayloadLength(h), Opcode(h), Fin(h));
      Consistent(c + h + p, d + Owed(state) + Handed(m.code, p), Take(m, |p|), Due(m.code, m.fin, m.togo - |p|))
  {
    hide HeaderLength, PayloadLength, Opcode, Fin;
    PayOwed(c, d, IDLE, state);
    var d1 := d + Owed(state);
    FeedConcat(IDLE, c, h);
    MessagesConcat(NO_MESSAGES, IDLE, c, h);
    assert h[HeaderLength(h)..] == [];
    var m := Started(h);
    assert Feed(IDLE, h) == Feed(m, []) == Some(m);
    assert Payload(IDLE, h) == Payload(m, []) == [];
    assert Payload(IDLE, c) + [] == Payload(IDLE, c);
    if p == [] {
      assert c + h + p == c + h;
      AppendDatas(d1, p);
      assert d1 + [] == d1;
      HeaderOnly(h);
    } else {
      assert m.togo > 0;
      HeaderOnly(h);
      PayloadStep(c + h, d1, m, p);
    }
  }

  /** A header alone brings no payload; it ends a message only if none follows. */
  lemma HeaderOnly(h: seq<Byte>)
    requires HeaderComplete(h) && |h| == HeaderLength(h)
    ensures AllPlain(IDLE, h) <==> Plain(Opcode(h), PayloadLength(h))
    ensures forall a: Assembly :: Messages(a, IDLE, h) == Ended(a, Started(h), Opcode(h), Fin(h))
  {
    assert h[HeaderLength(h)..] == [];
    assert AllPlain(Started(h), []);
    forall a: Assembly ensures Messages(a, IDLE, h) == Ended(a, Started(h), Opcode(h), Fin(h)) {
      assert Messages(a, IDLE, h) == Messages(Ended(a, Started(h), Opcode(h), Fin(h)), Started(h), []);
    }
  }

  lemma HeaderEnds(h: seq<Byte>)
    requires HeaderComplete(h) && |h| == HeaderLength(h)
    ensures Feed(IDLE, h) == Some(Started(h)) && (AllSupported(IDLE, h) <==> Supported(Opcode(h)))
  {
    assert h[HeaderLength(h)..] == [];
    assert Feed(Started(h), []) == Some(Started(h));
    assert AllSupported(Started(h), []);
  }

  /**
   * Every frame started in the bytes `c` has 14 bytes from its start on among the first `n` of the
   * stream, and one more if it starts behind `from`.
   */
  ghost predicate Windowed(c: seq<Byte>, n: nat, from: nat) {
    forall k :: 0 <= k < |c| && Feed(IDLE, c[..k]) == Some(IDLE) ==>
      k + FRAME_HEADER <= n && (k > from ==> k + FRAME_HEADER < n)
  }

  lemma WindowLater(c: seq<Byte>, n: nat, from: nat, n': nat, from': nat)
    requires Windowed(c, n, from) && n <= n' && from <= from'
    ensures Windowed(c, n', from')
  {
  }

  /** A proper part of a frame does not end at the end of a frame. */
  lemma WithinFrame(h: seq<Byte>, p: seq<Byte>, k: nat)
    requires HeaderComplete(h) && |h| == HeaderLength(h) && |p| <= PayloadLength(h) && 0 < k < |h + p|
    ensures Feed(IDLE, (h + p)[..k]) != Some(IDLE)
  {
    var f := (h + p)[..k];
    if k < |h| {
      assert f == h[..k];
    } else {
      var q := p[..k - |h|];
      assert f == h + q;
      HeaderEnds(h);
      FeedConcat(IDLE, h, q);
      if q != [] {
        FeedPart(Started(h), q);
      }
    }
  }

  /** Going on within a frame starts no other. */
  lemma PayloadWindow(c: seq<Byte>, m: Mode, p: seq<Byte>, n: nat, from: nat)
    requires Feed(IDLE, c) == Some(m) && 0 < |p| <= m.togo && Windowed(c, n, from)
    ensures Windowed(c + p, n, from)
  {
    forall k | 0 <= k < |c + p| && Feed(IDLE, (c + p)[..k]) == Some(IDLE) ensures k < |c| && (c + p)[..k] == c[..k] {
      if k >= |c| {
        var q := p[..k - |c|];
        assert (c + p)[..k] == c + q;
        FeedConcat(IDLE, c, q);
        if q != [] {
          FeedPart(m, q);
        }
      } else {
        assert (c + p)[..k] == c[..k];
      }
    }
  }

  /** A further frame, or a first part of it, with what was there when its header was unpacked. */
  lemma FrameWindow(c: seq<Byte>, h: seq<Byte>, p: seq<Byte>, n: nat, from: nat)
    requires Feed(IDLE, c) == Some(IDLE) && Windowed(c, n, from)
    requires HeaderComplete(h) && |h| == HeaderLength(h) && |p| <= PayloadLength(h)
    requires |c| + FRAME_HEADER <= n && (|c| > from ==> |c| + FRAME_HEADER < n)
    ensures Windowed(c + h + p, n, from)
  {
    hide HeaderComplete, HeaderLength, PayloadLength, Feed, Payload, AllSupported;
    var w := c + (h + p);
    assert c + h + p == w;
    forall k | 0 <= k < |w| && Feed(IDLE, w[..k]) == Some(IDLE)
      ensures k <= |c| && w[..k] == c[..k]
    {
      if k > |c| {
        var q := (h + p)[..k - |c|];
        assert w[..k] == c + q;
        WithinFrame(h, p, k - |c|);
        FeedConcat(IDLE, c, q);
      } else {
        assert w[..k] == c[..k];
      }
    }
  }

  /** The bytes `x` are read behind `consumed`, and of the first `pp` of them `items` were made. */
  ghost predicate InStep(consumed: seq<Byte>, delivered: seq<Item>, x: seq<Byte>, pp: nat, items: seq<Item>,
                         m: Mode, state: nat)
  {
    && pp <= |x| && Consistent(consumed + x[..pp], delivered + items, m, state)
    && Windowed(consumed + x[..pp], |consumed| + |x|, |consumed|)
  }

  class Connection {
    var togo: nat
    var done: nat
    var state: nat
    const frml: array<Byte>  // the last header unpacked, or the bytes stashed from the last read

    ghost var received: seq<Byte>  // everything read from the wire
    ghost var consumed: seq<Byte>  // all of it but the stashed bytes
    ghost var delivered: seq<Item>  // everything handed on

    constructor ()
      ensures Valid() && received == [] && consumed == [] && delivered == [] && fresh(frml)
    {
      togo, done, state := 0, 0, 0;
      frml := new Byte[FRAME_HEADER];
      received, consumed, delivered := [], [], [];
    }

    ghost function Where(): Mode
      requires frml.Length == FRAME_HEADER
      reads this`togo, frml
    {
      if togo == 0 then IDLE else Mode(togo, Opcode(frml[..]), Fin(frml[..]))
    }

    /**
     * Over every run: what was received is what was consumed and then what is stashed, at most 14
     * bytes and none within a payload; what was delivered is the payload of what was consumed; if
     * only plain frames were consumed, the lines delivered are their messages; and a frame was started
     * only with 14 bytes there, the first one as soon as they were.
     */
    ghost predicate Valid()
      reads this, frml
    {
      && frml.Length == FRAME_HEADER && done <= FRAME_HEADER && state <= 1
      && (togo > 0 ==> done == 0 && Supported(Opcode(frml[..])))
      && received == consumed + frml[..done]
      && Feed(IDLE, consumed) == Some(Where())
      && DataBytes(delivered) == Payload(IDLE, consumed)
      && Exact(consumed, delivered)
      && (AllPlain(IDLE, consumed) && state == 1 ==> Lines(delivered).cur == [])
      && Windowed(consumed, |received|, |consumed|) && (consumed == [] ==> done < FRAME_HEADER)
    }

    /** Unpacks the header at `pp`, having written the newline that is due. */
    method Unpack(buf: array<Byte>, pp: nat, rp: nat) returns (pp': nat, rp': nat)
      requires frml.Length == FRAME_HEADER && buf != frml && state <= 1
      requires rp <= pp && pp + FRAME_HEADER <= buf.Length
      modifies this`togo, frml, buf
      ensures frml[..] == old(buf[pp..pp + FRAME_HEADER])
      ensures pp' == pp + HeaderLength(frml[..]) && rp' == rp + state <= pp'
      ensures togo == PayloadLength(frml[..])
      ensures buf[..rp'] == old(buf[..rp]) + Rendered(Owed(state))
      ensures forall i :: pp' <= i < buf.Length ==> buf[i] == old(buf[i])
    {
      forall i | 0 <= i < FRAME_HEADER {
        frml[i] := buf[pp + i];
      }
      buf[rp] := LINE_END;
      rp' := rp + state;
      var plen, mask := frml[1] % 128, frml[1] / 128;
      if plen == 126 {
        togo := BigEndian(frml[2..4]);
        pp' := pp + 4;
      } else if plen == 127 {
        togo := BigEndian(frml[2..10]);
        pp' := pp + 10;
      } else {
        togo := plen;
        pp' := pp + 2;
      }
      pp' := pp' + if mask == 1 then 4 else 0;
    }

    /** Hands on what there is of the payload at `pp`; false means that the program is aborted. */
    method PutPayload(buf: array<Byte>, pp: nat, rp: nat, nrd: nat) returns (ok: bool, pp': nat, rp': nat)
      requires frml.Length == FRAME_HEADER && buf != frml && state <= 1
      requires rp <= pp <= nrd <= buf.Length
      modifies this`togo, this`state, buf
      ensures ok == Supported(Opcode(frml[..])) && frml[..] == old(frml[..])
      ensures pp' == pp + Min(old(togo), nrd - pp) && togo == old(togo) - (pp' - pp)
      ensures ok ==> rp' == rp + (if Delivers(Opcode(frml[..])) then pp' - pp else 0)
      ensures ok ==> state == Due(Opcode(frml[..]), Fin(frml[..]), togo)
      ensures ok ==> buf[..rp'] == old(buf[..rp]) + Rendered(Handed(Opcode(frml[..]), old(buf[pp..pp'])))
      ensures ok ==> forall i :: pp' <= i < buf.Length ==> buf[i] == old(buf[i])
    {
      hide Rendered, Datas;
      var pz := Min(togo, nrd - pp);
      togo := togo - pz;
      rp', pp' := rp, pp + pz;
      var code, finp := frml[0] % 16, frml[0] / 128 == 1;
      ok := true;
      if code == 0 || code == 1 || code == 2 || code == 8 {
        Move(buf, rp, pp, pz);
        rp' := rp + pz;
        state := if (togo == 0 && finp) || code == 8 then 1 else 0;
      } else if code == 9 {
        Move(buf, rp, pp, pz);
        rp' := rp + pz;
        state := 1;
      } else if code == 10 {
        state := 0;
      } else {
        ok := false;
      }
      RenderedDatas(old(buf[pp..pp']));
      assert old(buf[..rp]) + Rendered([]) == old(buf[..rp]);
    }

    /**
     * In the middle of a read of the bytes `x`: those up to `pp` are worked off, `items` were made of
     * them and fill the buffer up to `rp`, and the rest is still there.
     */
    ghost predicate Progress(buf: array<Byte>, x: seq<Byte>, pp: nat, rp: nat, items: seq<Item>)
      reads this, frml, buf
    {
      && frml.Length == FRAME_HEADER && state <= 1
      && rp <= pp <= |x| <= buf.Length && buf[..rp] == Rendered(items)
      && (forall i :: pp <= i < |x| ==> buf[i] == x[i])
      && InStep(consumed, delivered, x, pp, items, Where(), state)
      && (togo > 0 ==> pp == |x| && Supported(Opcode(frml[..])))
    }

    /** Unpacks the header at `pp` and hands on what there is of its payload. */
    method Work(buf: array<Byte>, pp: nat, rp: nat, nrd: nat) returns (ok: bool, pp': nat, rp': nat)
      requires frml.Length == FRAME_HEADER && buf != frml && state <= 1
      requires rp <= pp && pp + FRAME_HEADER <= nrd <= buf.Length
      modifies this`togo, this`state, frml, buf
      ensures frml[..] == old(buf[pp..pp + FRAME_HEADER]) && ok == Supported(Opcode(frml[..]))
      ensures var n := pp + HeaderLength(frml[..]);
        n <= nrd && pp' == n + Min(PayloadLength(frml[..]), nrd - n) && togo == PayloadLength(frml[..]) - (pp' - n)
      ensures ok ==> rp' < pp' && state == Due(Opcode(frml[..]), Fin(frml[..]), togo)
      ensures ok ==>
        (var p := old(buf[..])[pp + HeaderLength(frml[..])..pp'];
         buf[..rp'] == old(buf[..rp]) + Rendered(Owed(old(state)) + Handed(Opcode(frml[..]), p)))
      ensures ok ==> forall i :: pp' <= i < buf.Length ==> buf[i] == old(buf[i])
    {
      hide HeaderLength, PayloadLength, Opcode, Fin, Rendered, Due, Handed, Owed, Supported;
      ghost var due := state;
      pp', rp' := Unpack(buf, pp, rp);
      ghost var n := pp';
      ghost var front := buf[..rp'];
      label Unpacked:
      ok, pp', rp' := PutPayload(buf, pp', rp', nrd);
      ghost var p := old(buf[..])[n..pp'];
      assert old@Unpacked(buf[n..pp']) == p;
      assert ok ==> buf[..rp'] == front + Rendered(Handed(Opcode(frml[..]), p));
      RenderedConcat(Owed(due), Handed(Opcode(frml[..]), p));
    }

    /** A header at `pp` with what there is of its payload. */
    method Frame(buf: array<Byte>, ghost x: seq<Byte>, pp: nat, rp: nat, nrd: nat, ghost items: seq<Item>)
      returns (ok: bool, pp': nat, rp': nat, ghost items': seq<Item>)
      requires nrd == |x| && buf != frml && Progress(buf, x, pp, rp, items)
      requires togo == 0 && pp + FRAME_HEADER <= nrd && (pp > 0 ==> pp + FRAME_HEADER < nrd)
      modifies this`togo, this`state, frml, buf
      ensures ok ==> pp < pp' && rp' < pp' && items <= items' && Progress(buf, x, pp', rp', items')
      ensures !ok ==> !AllSupported(IDLE, consumed + x)
    {
      hide PayloadLength, Opcode, Fin, InStep, Rendered, Due, Handed, AllSupported, Owed;
      ghost var due := state;
      ghost var s := buf[..];
      ok, pp', rp' := Work(buf, pp, rp, nrd);
      ghost var f := frml[..];
      ghost var n := pp + HeaderLength(f);
      ghost var p, more := x[n..pp'], Owed(due) + Handed(Opcode(f), x[n..pp']);
      SameFrom(s, x, pp, n, pp');
      SameFrom(s, x, pp, pp, pp + FRAME_HEADER);
      assert s[pp..pp + FRAME_HEADER] == old(buf[pp..pp + FRAME_HEADER]);
      FrameAdvance(consumed, delivered, items, due, x, pp, f, p);
      items' := items + Owed(due) + Handed(Opcode(f), p);
      assert items' == items + more;
      RenderedConcat(items, more);
    }

    /** Goes on with the payload of the frame under way. */
    method Resume(buf: array<Byte>, ghost x: seq<Byte>, nrd: nat)
      returns (ok: bool, pp: nat, rp: nat, ghost items: seq<Item>)
      requires nrd == |x| > 0 && buf != frml && nrd <= buf.Length && buf[..nrd] == x
      requires Valid'(x) && togo > 0
      modifies this`togo, this`state, buf
      ensures ok && 0 < pp == Min(old(togo), nrd) && Progress(buf, x, pp, rp, items)
      ensures rp == if Delivers(Opcode(frml[..])) then pp else 0
    {
      hide HeaderLength, PayloadLength, Opcode, Fin, InStep, Rendered, Due, Handed, AllSupported, Windowed;
      ghost var m := Where();
      ghost var p := x[..Min(togo, nrd)];
      assert buf[0..|p|] == p && buf[..0] == [];
      ok, pp, rp := PutPayload(buf, 0, 0, nrd);
      items := Handed(m.code, p);
      ResumeStep(consumed, delivered, x, m, p);
      assert [] + Rendered(items) == Rendered(items);
    }

    /** `Valid` but for the bytes `x` having been read and not yet worked off. */
    ghost predicate Valid'(x: seq<Byte>)
      reads this, frml
    {
      && frml.Length == FRAME_HEADER && state <= 1 && (togo > 0 ==> Supported(Opcode(frml[..])))
      && received == consumed + x
      && Feed(IDLE, consumed) == Some(Where()) && DataBytes(delivered) == Payload(IDLE, consumed)
      && Exact(consumed, delivered)
      && (AllPlain(IDLE, consumed) && state == 1 ==> Lines(delivered).cur == [])
      && Windowed(consumed, |received|, |consumed|)
    }

    /** Puts the stashed bytes in front of what is read into the buffer. */
    method Fetch(buf: array<Byte>, chunk: seq<Byte>) returns (nrd: nat)
      requires Valid() && buf != frml && done + |chunk| <= buf.Length
      modifies this`received, buf
      ensures nrd == done + |chunk| && buf[..nrd] == frml[..done] + chunk
      ensures received == old(received) + chunk && Valid'(buf[..nrd])
    {
      forall i | 0 <= i < done {
        buf[i] := frml[i];
      }
      forall i | 0 <= i < |chunk| {
        buf[done + i] := chunk[i];
      }
      nrd := done + |chunk|;
      WindowLater(consumed, |received|, |consumed|, |received + chunk|, |consumed|);
      received := received + chunk;
      assert buf[..nrd] == frml[..done] + chunk;
      assert received == consumed + buf[..nrd];
    }

    /** Keeps the bytes from `pp` on for the next read and writes the newline that is due. */
    method Stash(buf: array<Byte>, ghost x: seq<Byte>, pp: nat, rp: nat, nrd: nat, ghost items: seq<Item>)
      returns (n: nat, ghost items': seq<Item>)
      requires nrd == |x| && buf != frml && Progress(buf, x, pp, rp, items) && received == consumed + x
      requires nrd <= pp + FRAME_HEADER && (pp == 0 ==> nrd < FRAME_HEADER) && rp < buf.Length
      modifies this`done, this`consumed, this`delivered, frml, buf
      ensures Valid() && items <= items' && n == |items'| <= nrd + 1 && n <= buf.Length && buf[..n] == Rendered(items')
      ensures consumed == old(consumed) + x[..pp] && delivered == old(delivered) + items'
      ensures Windowed(consumed, |received|, |old(consumed)|)
    {
      hide Rendered, Feed, DataBytes, Payload, Exact, AllPlain, Lines, Opcode, Fin, Supported, Windowed, InStep;
      StashStreams(consumed, delivered, items, x, pp, Where(), state);
      done := nrd - pp;
      forall i | 0 <= i < done {
        frml[i] := buf[pp + i];
      }
      assert frml[..done] == x[pp..];
      assert togo > 0 ==> frml[..] == old(frml[..]);
      buf[rp] := LINE_END;
      n := rp + state;
      items' := items + Owed(state);
      RenderedConcat(items, Owed(state));
      OwedNewline(state);
      consumed, delivered := consumed + x[..pp], delivered + items';
      assert received == consumed + frml[..done];
    }

    /** The bytes read are all payload of the frame under way that is handed on, and there is no room left. */
    predicate Fills(bsz: nat, chunk: seq<Byte>)
      requires frml.Length == FRAME_HEADER
      reads this`togo, frml
    {
      togo >= |chunk| == bsz && Delivers(Opcode(frml[..]))
    }

    /**
     * Reads `chunk` from the wire into `buf` and hands on payload, in place, with a newline behind
     * each message. A header is unpacked only when 14 bytes are there, and one more if it is not at
     * the start of what was stashed and read; what remains is stashed. The newline put behind the
     * last item falls behind the `bsz` bytes exactly if payload under way fills them.
     */
    method Recv(buf: array<Byte>, bsz: nat, chunk: seq<Byte>) returns (r: Received, ghost items: seq<Item>)
      requires Valid() && buf != frml && 0 < bsz && done + |chunk| <= bsz <= buf.Length
      requires Fills(bsz, chunk) ==> bsz < buf.Length
      modifies this, frml, buf
      ensures chunk == [] <==> r == Failed
      ensures r.Got? ==> Valid() && received == old(received) + chunk && old(consumed) <= consumed
      ensures r.Got? ==> delivered == old(delivered) + items && r.n == |items| <= old(done) + |chunk| + 1
      ensures r.Got? ==> r.n <= buf.Length && buf[..r.n] == Rendered(items)
      ensures r.Got? ==> Windowed(consumed, |received|, |old(consumed)|)
      ensures r == Failed ==> Valid() && received == old(received)
      ensures r == Aborted ==> !AllSupported(IDLE, old(received) + chunk)
    {
      hide InStep, Rendered, AllSupported, Exact, Feed, Opcode, Windowed;
      items := [];
      var nrd := Fetch(buf, chunk);
      if chunk == [] {
        return Failed, items;
      }
      ghost var x := buf[..nrd];
      var ok := true;
      var pp: nat, rp: nat := 0, 0;
      if togo > 0 {
        ok, pp, rp, items := Resume(buf, x, nrd);
      } else {
        StartRead(consumed, delivered, state, x);
      }
      while ok && (pp + FRAME_HEADER < nrd || (pp == 0 && FRAME_HEADER <= nrd))
        invariant received == old(received) + chunk == consumed + x
        invariant consumed == old(consumed) && delivered == old(delivered) && nrd == old(done) + |chunk|
        invariant !ok ==> !AllSupported(IDLE, consumed + x)
        invariant ok ==> Progress(buf, x, pp, rp, items) && rp < buf.Length
        decreases ok, nrd - pp
      {
        ok, pp, rp, items := Frame(buf, x, pp, rp, nrd, items);
      }
      if !ok {
        return Aborted, items;
      }
      assert pp <= nrd;
      var n;
      n, items := Stash(buf, x, pp, rp, nrd, items);
      return Got(n), items;
    }
  }

  /** What unpacking the header `f` at `pp` and working off the payload `p` does to the streams. */
  lemma FrameAdvance(consumed: seq<Byte>, delivered: seq<Item>, items: seq<Item>, due: nat,
                     x: seq<Byte>, pp: nat, f: seq<Byte>, p: seq<Byte>)
    requires pp + FRAME_HEADER <= |x| && f == x[pp..pp + FRAME_HEADER] && due <= 1
    requires (pp > 0 ==> pp + FRAME_HEADER < |x|) && InStep(consumed, delivered, x, pp, items, IDLE, due)
    requires |p| <= PayloadLength(f) && pp + HeaderLength(f) + |p| <= |x|
    requires p == x[pp + HeaderLength(f)..pp + HeaderLength(f) + |p|]
    ensures !Supported(Opcode(f)) ==> !AllSupported(IDLE, consumed + x)
    ensures var togo := PayloadLength(f);
      InStep(consumed, delivered, x, pp + HeaderLength(f) + |p|, items + Owed(due) + Handed(Opcode(f), p),
             Take(Mode(togo, Opcode(f), Fin(f)), |p|), Due(Opcode(f), Fin(f), togo - |p|))
  {
    hide PayloadLength, Opcode, Fin, Due, Handed, HeaderLength, Consistent, AllSupported, Windowed, Feed, Owed, Take;
    var c, n := consumed + x[..pp], |consumed| + |x|;
    var w := x[pp..];
    assert f == w[..FRAME_HEADER];
    HeaderOf(f, w);
    var h := f[..HeaderLength(f)];
    assert h == w[..|h|];
    FrameStreams(c, delivered + items, due, h, p, n, |consumed|);
    FrameBytes(consumed, x, pp, h, p);
    Regroup(delivered, items, Owed(due), Handed(Opcode(f), p));
    SupportedBehind(c, w);
  }

  lemma SameFrom(s: seq<Byte>, x: seq<Byte>, pp: nat, a: nat, b: nat)
    requires pp <= a <= b <= |x| <= |s| && forall i :: pp <= i < |x| ==> s[i] == x[i]
    ensures s[a..b] == x[a..b]
  {
  }

  lemma Regroup(a: seq<Item>, b: seq<Item>, c: seq<Item>, d: seq<Item>)
    ensures a + b + c + d == a + (b + c + d)
  {
  }

  /** The streams behind a frame, or a first part of it, and what was there of it. */
  lemma FrameStreams(c: seq<Byte>, d: seq<Item>, due: nat, h: seq<Byte>, p: seq<Byte>, n: nat, from: nat)
    requires Consistent(c, d, IDLE, due) && due <= 1 && Windowed(c, n, from)
    requires HeaderComplete(h) && |h| == HeaderLength(h) && |p| <= PayloadLength(h)
    requires |c| + FRAME_HEADER <= n && (|c| > from ==> |c| + FRAME_HEADER < n)
    ensures Feed(IDLE, c) == Some(IDLE) && Windowed(c + h + p, n, from)
    ensures Consistent(c + h + p, d + Owed(due) + Handed(Opcode(h), p),
                       Take(Mode(PayloadLength(h), Opcode(h), Fin(h)), |p|),
                       Due(Opcode(h), Fin(h), PayloadLength(h) - |p|))
  {
    hide HeaderComplete, PayloadLength, Opcode, Fin, Due, Handed, HeaderLength, Consistent, Windowed, Feed, Owed, Take;
    ConsistentFeed(c, d, due);
    FrameStep(c, d, due, h, p);
    FrameWindow(c, h, p, n, from);
  }

  lemma SupportedBehind(c: seq<Byte>, w: seq<Byte>)
    requires Feed(IDLE, c) == Some(IDLE)
    ensures AllSupported(IDLE, c + w) ==> AllSupported(IDLE, w)
  {
    hide Feed, AllSupported;
    FeedConcat(IDLE, c, w);
  }

  /** The bytes up to the end of a header and a payload. */
  lemma FrameBytes(consumed: seq<Byte>, x: seq<Byte>, pp: nat, h: seq<Byte>, p: seq<Byte>)
    requires pp + |h| + |p| <= |x| && h == x[pp..][..|h|] && p == x[pp + |h|..pp + |h| + |p|]
    ensures consumed + x[..pp] + h + p == consumed + x[..pp + |h| + |p|]
    ensures consumed + x[..pp] + x[pp..] == consumed + x
  {
    assert x[..pp + |h| + |p|] == x[..pp] + h + p;
    assert x == x[..pp] + x[pp..];
  }

  /** Nothing of the bytes just read is worked off yet. */
  lemma StartRead(c: seq<Byte>, d: seq<Item>, state: nat, x: seq<Byte>)
    requires Feed(IDLE, c) == Some(IDLE) && DataBytes(d) == Payload(IDLE, c) && Exact(c, d)
    requires AllPlain(IDLE, c) && state == 1 ==> Lines(d).cur == []
    requires Windowed(c, |c| + |x|, |c|)
    ensures InStep(c, d, x, 0, [], IDLE, state) && Rendered([]) == []
  {
    hide Windowed;
    assert c + x[..0] == c && d + [] == d;
  }

  /** What is read is payload of the frame under way, or starts with the rest of that. */
  lemma ResumeStep(c: seq<Byte>, d: seq<Item>, x: seq<Byte>, m: Mode, p: seq<Byte>)
    requires Feed(IDLE, c) == Some(m) && DataBytes(d) == Payload(IDLE, c) && Exact(c, d)
    requires 0 < |p| <= m.togo && p <= x && Windowed(c, |c| + |x|, |c|)
    ensures InStep(c, d, x, |p|, Handed(m.code, p), Take(m, |p|), Due(m.code, m.fin, m.togo - |p|))
  {
    hide Consistent, Windowed, Feed, DataBytes, Payload, Exact;
    PayloadStep(c, d, m, p);
    PayloadWindow(c, m, p, |c| + |x|, |c|);
    assert x[..|p|] == p;
  }

  lemma ConsistentFeed(c: seq<Byte>, d: seq<Item>, state: nat)
    requires Consistent(c, d, IDLE, state)
    ensures Feed(IDLE, c) == Some(IDLE)
  {
  }

  /** At the end of a read the newline due is paid and the streams are in step. */
  lemma StashStreams(consumed: seq<Byte>, delivered: seq<Item>, items: seq<Item>, x: seq<Byte>, pp: nat,
                     m: Mode, state: nat)
    requires state <= 1 && InStep(consumed, delivered, x, pp, items, m, state)
    ensures var c, d, n := consumed + x[..pp], delivered + (items + Owed(state)), |consumed| + |x|;
      && Feed(IDLE, c) == Some(m) && DataBytes(d) == Payload(IDLE, c) && Exact(c, d)
      && (AllPlain(IDLE, c) && state == 1 ==> Lines(d).cur == [])
      && Windowed(c, n, |consumed|) && Windowed(c, n, |c|)
  {
    hide Windowed;
    PayOwed(consumed + x[..pp], delivered + items, m, state);
    assert delivered + items + Owed(state) == delivered + (items + Owed(state));
    WindowLater(consumed + x[..pp], |consumed| + |x|, |consumed|, |consumed| + |x|, |consumed + x[..pp]|);
  }

  lemma OwedNewline(state: nat)
    requires state <= 1
    ensures Rendered(Owed(state)) == if state == 1 then [LINE_END] else []
  {
  }

  /** The header at the front of what is left to read. */
  lemma HeaderOf(f: seq<Byte>, w: seq<Byte>)
    requires |f| == FRAME_HEADER && f <= w
    ensures HeaderComplete(f) && HeaderLength(f) <= FRAME_HEADER
    ensures var h := f[..HeaderLength(f)];
      && HeaderComplete(h) && HeaderLength(h) == |h| && PayloadLength(h) == PayloadLength(f)
      && Opcode(h) == Opcode(f) && Fin(h) == Fin(f)
    ensures AllSupported(IDLE, w) ==> Supported(Opcode(f))
  {
    var n := HeaderLength(f);
    var h := f[..n];
    assert HeaderComplete(h);
    assert h + f[n..] == f && h + w[n..] == w;
    HeaderPrefix(h, f[n..]);
    HeaderPrefix(h, w[n..]);
  }

  // ---- every way of cutting the wire into reads

  /**
   * Delivery is independent of chunking: two runs that received the same bytes differ by at most the
   * 14 bytes one of them may have stashed, and the payload delivered by the run that is behind is a
   * prefix of the other's.
   */
  lemma ChunkingIndependent(a: Connection, b: Connection)
    requires a.Valid() && b.Valid() && a.received == b.received && |a.consumed| <= |b.consumed|
    ensures a.consumed <= b.consumed && |b.consumed| - |a.consumed| <= FRAME_HEADER
    ensures DataBytes(b.delivered)
         == DataBytes(a.delivered) + Payload(a.Where(), b.consumed[|a.consumed|..])
    ensures a.done == 0 ==> DataBytes(a.delivered) == DataBytes(b.delivered) == Payload(IDLE, a.received)
  {
    hide Feed, Payload, DataBytes, AllPlain, Lines, Supported;
    var c, e := a.consumed, b.consumed[|a.consumed|..];
    assert a.consumed == a.received[..|c|] && b.consumed == b.received[..|b.consumed|];
    assert b.consumed == c + e;
    FeedConcat(IDLE, c, e);
    if a.done == 0 {
      assert e == [] && c + e == c;
    }
  }

  function Flatten(chunks: seq<seq<Byte>>): seq<Byte> {
    if chunks == [] then [] else Flatten(chunks[..|chunks| - 1]) + chunks[|chunks| - 1]
  }

  /** Reading a whole list of chunks: everything read is either consumed or stashed. */
  method Pump(conn: Connection, buf: array<Byte>, chunks: seq<seq<Byte>>) returns (ok: bool)
    requires conn.Valid() && conn.received == [] && buf != conn.frml
    requires forall i :: 0 <= i < |chunks| ==> chunks[i] != [] && FRAME_HEADER + |chunks[i]| < buf.Length
    modifies conn, conn.frml, buf
    ensures ok ==> conn.Valid() && conn.received == Flatten(chunks)
    ensures AllSupported(IDLE, Flatten(chunks)) ==> ok
  {
    for i := 0 to |chunks|
      invariant conn.Valid() && conn.received == Flatten(chunks[..i])
    {
      assert chunks[..i + 1][..i] == chunks[..i];
      var r, items := conn.Recv(buf, buf.Length - 1, chunks[i]);
      if r == Aborted {
        FlattenTail(chunks, i + 1);
        SupportedPrefix(IDLE, Flatten(chunks[..i + 1]), Flatten(chunks[i + 1..]));
        return false;
      }
    }
    assert chunks[..|chunks|] == chunks;
    ok := true;
  }

  lemma {:induction false} FlattenTail(chunks: seq<seq<Byte>>, n: nat)
    requires n <= |chunks|
    ensures Flatten(chunks) == Flatten(chunks[..n]) + Flatten(chunks[n..])
    decreases |chunks|
  {
    if n == |chunks| {
      assert chunks[..n] == chunks && chunks[n..] == [];
    } else {
      var m := |chunks| - 1;
      var a := chunks[..m];
      FlattenTail(a, n);
      assert a[..n] == chunks[..n] && a[n..] == chunks[n..][..m - n];
      assert chunks[n..][m - n] == chunks[m];
    }
  }

  /** An unsupported frame stays one when more bytes come. */
  lemma {:induction false} SupportedPrefix(m: Mode, a: seq<Byte>, b: seq<Byte>)
    ensures AllSupported(m, a + b) ==> AllSupported(m, a)
    decreases |a|
  {
    if a != [] {
      if m.togo > 0 {
        var n := Min(m.togo, |a|);
        if n < |a| || n == m.togo {
          assert (a + b)[n..] == a[n..] + b;
          assert Min(m.togo, |a + b|) == n;
          SupportedPrefix(Take(m, n), a[n..], b);
        }
      } else if HeaderComplete(a) {
        HeaderPrefix(a, b);
        SupportedPrefix(Started(a), a[HeaderLength(a)..], b);
      }
    }
  }
}
