/** What the sockets of src/wssnarf.c do get to: joining, staying joined, and being closed. */
module Liveness {
  import opened Options
  import opened Snarfer

  /** How far towards having joined a state is. */
  function Rank(st: St): nat {
    match st
    case UNK => 0
    case CONN => 1
    case CONND => 2
    case AUTH => 3
    case AUTHD => 4
    case JOIN => 5
    case JOIND => 6
    case _ => 7
  }

  /** A socket to be opened, or an open web socket on its way or there. */
  predicate Rising(s: Sock) {
    (s.st == UNK && !s.watching) || (Live(s.st) && s.Stream() && s.watching)
  }

  /** An event that refuses nothing: hooks that accept or wait, traffic, a heart that beats. */
  predicate Friendly(e: Event) {
    match e
    case Prepare(h) =>
      h.open.Some? && h.open != Some(Rest) && h.conn >= 0 && h.auth >= 0 && h.join >= 0 && !h.idle
    case Read(_, _) => true
    case Beat(dead) => !dead
    case Interrupt => false
  }

  /** A `prepare` in which every hook accepts. */
  predicate Welcoming(e: Event) {
    Friendly(e) && e.Prepare? && e.h.conn > 0 && e.h.auth > 0 && e.h.join > 0
  }

  lemma FriendlyStep(s: Sock, e: Event)
    requires Rising(s) && Friendly(e)
    ensures Rising(Step(s, e)) && Rank(s.st) <= Rank(Step(s, e).st)
    ensures Welcoming(e) ==> Step(s, e).st == JOIND
    ensures s.st == JOIND ==> Step(s, e) == s
    ensures s.st != UNK ==> Step(s, e).conn == s.conn
  {
  }

  /**
   * A web socket gets where it is to get: while nothing refuses, is idle, dead or interrupted, it never
   * falls back, and from the first `prepare` on in which every hook accepts it has joined and is open.
   */
  lemma {:induction false} Joins(s: Sock, es: seq<Event>)
    requires Rising(s) && forall i :: 0 <= i < |es| ==> Friendly(es[i])
    ensures Rising(Run(s, es)) && Rank(s.st) <= Rank(Run(s, es).st)
    ensures (exists i :: 0 <= i < |es| && Welcoming(es[i])) ==> Run(s, es).st == JOIND
    decreases |es|
  {
    hide Step, Friendly, Welcoming, Rising, Rank;
    if es != [] {
      var n := |es| - 1;
      Joins(s, es[..n]);
      FriendlyStep(Run(s, es[..n]), es[n]);
      if i :| 0 <= i < |es| && Welcoming(es[i]) && i < n {
        assert Welcoming(es[..n][i]);
      }
    }
  }

  /** What leaves a web socket that has joined alone. */
  predicate Calm(e: Event) {
    match e
    case Prepare(h) => !h.idle
    case Read(_, _) => true
    case Beat(dead) => !dead
    case Interrupt => false
  }

  /** A web socket stays joined, open and as it is through every calm run. */
  lemma {:induction false} StaysJoined(s: Sock, es: seq<Event>)
    requires s.st == JOIND && s.Stream() && forall i :: 0 <= i < |es| ==> Calm(es[i])
    ensures Run(s, es) == s
    decreases |es|
  {
    if es != [] {
      StaysJoined(s, es[..|es| - 1]);
    }
  }

  /** Without traffic for too long it is closed for good by the next `prepare`; a REST socket is not. */
  lemma IdleCloses(s: Sock, h: Hooks)
    requires s.st == JOIND && s.conn.Some? && h.idle
    ensures if s.Stream() then Step(s, Prepare(h)) == Sock(FINI, None, false, s.since) else Step(s, Prepare(h)) == s
  {
  }

  /** A joined web socket is left by the first event that is not calm, and just by that. */
  lemma LeavesJoined(s: Sock, e: Event)
    requires s.st == JOIND && s.Stream()
    ensures Step(s, e).st == JOIND <==> Calm(e)
    ensures !Calm(e) ==> Step(s, e).st == (if e.Prepare? then FINI else if e.Beat? then NODATA else INTR)
  {
  }

  /** A heart that stopped and an interrupt change the state alone, and the next `prepare` closes the socket. */
  lemma Stopped(s: Sock, e: Event, h: Hooks)
    requires e == Beat(true) || e == Interrupt
    ensures Step(s, e) == s.(st := if e == Interrupt then INTR else NODATA)
    ensures Run(s, [e, Prepare(h)]) == Sock(FINI, None, false, s.since)
  {
    hide FromConn, FromAuth, FromJoin, FromJoind, Run, WsRead;
    TwoSteps(s, e, Prepare(h));
  }

  lemma TwoSteps(s: Sock, e: Event, f: Event)
    ensures Run(s, [e, f]) == Step(Step(s, e), f)
  {
    assert [e, f][..1] == [e] && [e][..0] == [];
    assert Run(s, [e]) == Step(Run(s, []), e);
  }

  /** In one go: from not opened to joined, with the three acceptances in order; or with the one of a REST socket. */
  lemma OneGo(s: Sock, h: Hooks)
    requires s.st == UNK && h.open.Some? && h.conn > 0
    ensures h.open != Some(Rest) && h.auth > 0 && h.join > 0 && !h.idle ==>
      Step(s, Prepare(h)) == Sock(JOIND, h.open, true, [Connected, Authed, Joined])
    ensures h.open == Some(Rest) ==> Step(s, Prepare(h)) == Sock(JOIND, h.open, true, [Connected])
  {
    assert [Connected] + [Authed] + [Joined] == [Connected, Authed, Joined];
  }

  /** A socket that cannot be opened is finished. */
  lemma NotOpened(s: Sock, h: Hooks)
    requires s.st == UNK && h.open.None?
    ensures Step(s, Prepare(h)) == Sock(FINI, None, false, s.since)
  {
  }

  /** A hook that waits keeps a web socket in the state that asks; one that refuses closes it or sends it back. */
  lemma Waits(s: Sock, h: Hooks)
    requires s.Stream()
    ensures s.st == CONN ==>
      (h.conn == 0 ==> Step(s, Prepare(h)) == s)
      && (h.conn < 0 ==> Step(s, Prepare(h)) == Sock(FINI, None, false, s.since))
    ensures s.st == CONND || s.st == AUTH ==>
      (h.auth == 0 ==> Step(s, Prepare(h)) == s.(st := AUTH))
      && (h.auth < 0 ==> Step(s, Prepare(h)) == s.(st := CONND))
    ensures s.st == AUTHD || s.st == JOIN ==>
      (h.join == 0 ==> Step(s, Prepare(h)) == s.(st := JOIN))
      && (h.join < 0 ==> Step(s, Prepare(h)) == s.(st := AUTHD))
  {
  }

  /** An answer read that accepts takes a web socket one phase on; any other leaves it. */
  lemma Answered(s: Sock, fail: bool, r: int)
    requires s.Stream() && s.watching && s.st != UNK
    ensures var t := Step(s, Read(fail, r));
      if fail || r <= 0 then t == s
      else if s.st == CONN then t == s.Got(Connected).(st := CONND)
      else if s.st == AUTH then t == s.Got(Authed).(st := AUTHD)
      else if s.st == JOIN then t == s.Got(Joined).(st := JOIND)
      else t == s
  {
  }

  /** A REST socket that fails to read is opened again by the next `prepare`, and has joined again. */
  lemma ComesBack(s: Sock, r: int, h: Hooks)
    requires s.conn == Some(Rest) && s.watching && h.open == Some(Rest) && h.conn > 0
    ensures Step(s, Read(true, r)) == Sock(UNK, None, false, s.since) && Step(s, Read(false, r)) == s
    ensures Run(s, [Read(true, r), Prepare(h)]) == Sock(JOIND, Some(Rest), true, [Connected])
  {
    hide Run;
    TwoSteps(s, Read(true, r), Prepare(h));
  }
}
