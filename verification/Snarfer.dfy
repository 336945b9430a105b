/** The life of the sockets of src/wssnarf.c, under every interleaving of its callbacks. */
module Snarfer {
  import opened Options

  datatype St = UNK | CONN | CONND | AUTH | AUTHD | JOIN | JOIND | NODATA | INTR | FINI

  /** Who reads from an open socket: `ws_cb`, `sio3_cb` or `rest_cb`. */
  datatype Proto = Ws | Sio3 | Rest

  /** Acceptance of a phase, by the hook that asks for it or by the one that reads the answer. */
  datatype Accept = Connected | Authed | Joined

  /** A socket: state, connection if open, whether reads are watched for, and acceptances since its opening. */
  datatype Sock = Sock(st: St, conn: Option<Proto>, watching: bool, since: seq<Accept>) {
    predicate Stream() {
      conn.Some? && conn.value != Rest
    }

    function Got(a: Accept): Sock {
      this.(since := since + [a])
    }
  }

  const START: Sock := Sock(UNK, None, false, [])

  /** What the outside does while `prepare` looks at a socket: results of hooks, and idleness. */
  datatype Hooks = Hooks(open: Option<Proto>, conn: int, auth: int, join: int, idle: bool)

  datatype Event =
    | Prepare(h: Hooks)
    | Read(fail: bool, r: int)  // r is what the hook for the state makes of it
    | Beat(dead: bool)
    | Interrupt

  // ---- what an event does to a socket

  function Closed(s: Sock): Sock {
    s.(st := FINI, conn := None, watching := false)
  }

  /** `prepare` from the state `JOIND` on, and so for the states before it. */
  function FromJoind(s: Sock, h: Hooks): Sock {
    if s.conn == Some(Rest) || !h.idle then s else Closed(s)
  }

  function FromJoin(s: Sock, h: Hooks): Sock {
    if s.conn == Some(Rest) then FromJoind(s.(st := JOIND), h)
    else if h.join < 0 then s.(st := AUTHD)
    else if h.join == 0 then s
    else FromJoind(s.Got(Joined).(st := JOIND), h)
  }

  function FromAuth(s: Sock, h: Hooks): Sock {
    if s.conn == Some(Rest) then FromJoin(s.(st := JOIN), h)
    else if h.auth < 0 then s.(st := CONND)
    else if h.auth == 0 then s
    else FromJoin(s.Got(Authed).(st := JOIN), h)
  }

  function FromConn(s: Sock, h: Hooks): Sock {
    if h.conn < 0 then Closed(s)
    else if h.conn == 0 then s
    else FromAuth(s.Got(Connected).(st := AUTH), h)
  }

  function Prepared(s: Sock, h: Hooks): Sock {
    match s.st
    case UNK => if h.open.None? then Closed(s) else FromConn(Sock(CONN, h.open, true, []), h)
    case CONN => FromConn(s, h)
    case CONND => FromAuth(s.(st := AUTH), h)
    case AUTH => FromAuth(s, h)
    case AUTHD => FromJoin(s.(st := JOIN), h)
    case JOIN => FromJoin(s, h)
    case JOIND => FromJoind(s, h)
    case NODATA => Closed(s)
    case INTR => Closed(s)
    case FINI => s
  }

  function WsRead(s: Sock, fail: bool, r: int): Sock {
    if fail then s
    else if s.st == UNK || s.st == CONN then
      if r > 0 then s.Got(Connected).(st := CONND) else s.(st := CONN)
    else if s.st == AUTH && r > 0 then s.Got(Authed).(st := AUTHD)
    else if s.st == JOIN && r > 0 then s.Got(Joined).(st := JOIND)
    else s
  }

  function RestRead(s: Sock, fail: bool): Sock {
    if fail then s.(st := UNK, conn := None, watching := false) else s
  }

  function Step(s: Sock, e: Event): Sock {
    match e
    case Prepare(h) => Prepared(s, h)
    case Read(fail, r) =>
      if !s.watching then s else if s.conn == Some(Rest) then RestRead(s, fail) else WsRead(s, fail, r)
    case Beat(dead) => if dead then s.(st := NODATA) else s
    case Interrupt => s.(st := INTR)
  }

  function Run(s: Sock, es: seq<Event>): Sock {
    if es == [] then s else Step(Run(s, es[..|es| - 1]), es[|es| - 1])
  }

  // ---- what holds over every run

  predicate Live(st: St) {
    st == CONN || st == CONND || st == AUTH || st == AUTHD || st == JOIN || st == JOIND
  }

  predicate Finished(st: St) {
    st == FINI || st == NODATA || st == INTR
  }

  /** The acceptances `want` are among `have`, in that order. */
  predicate InOrder(want: seq<Accept>, have: seq<Accept>) {
    if want == [] then true
    else if have == [] then false
    else if want[|want| - 1] == have[|have| - 1] then InOrder(want[..|want| - 1], have[..|have| - 1])
    else InOrder(want, have[..|have| - 1])
  }

  lemma {:induction false} InOrderMore(want: seq<Accept>, have: seq<Accept>, a: Accept)
    requires InOrder(want, have)
    ensures InOrder(want, have + [a]) && InOrder(want + [a], have + [a])
    decreases |want|
  {
    assert (have + [a])[..|have|] == have && (want + [a])[..|want|] == want;
    if want != [] && want[|want| - 1] == a {
      InOrderInit(want, have);
    }
  }

  lemma {:induction false} InOrderInit(want: seq<Accept>, have: seq<Accept>)
    requires InOrder(want, have) && want != []
    ensures InOrder(want[..|want| - 1], have)
    decreases |have|
  {
    var w, n := want[..|want| - 1], |have| - 1;
    if want[|want| - 1] == have[n] {
      if w != [] {
        if w[|w| - 1] == have[n] {
          InOrderInit(w, have[..n]);
        }
      }
    } else {
      InOrderInit(want, have[..n]);
      if w != [] && w[|w| - 1] == have[n] {
        InOrderInit(w, have[..n]);
      }
    }
  }

  /** The phases that must have been accepted for a state. */
  function Needed(st: St, stream: bool): seq<Accept> {
    if st == CONND || st == AUTH then [Connected]
    else if st == AUTHD || st == JOIN then if stream then [Connected, Authed] else [Connected]
    else if st == JOIND then if stream then [Connected, Authed, Joined] else [Connected]
    else []
  }

  /** A watched socket is an open one, and live states have one. */
  predicate OpenAsNeeded(s: Sock) {
    && (Live(s.st) ==> s.conn.Some? && s.watching)
    && (s.watching <==> s.conn.Some?)
    && (s.st == UNK || s.st == FINI ==> s.conn.None?)
  }

  predicate AcceptedAsNeeded(s: Sock) {
    InOrder(Needed(s.st, s.Stream()), s.since)
  }

  predicate Inv(s: Sock) {
    OpenAsNeeded(s) && AcceptedAsNeeded(s)
  }

  lemma Accepted(want: seq<Accept>, s: Sock, a: Accept)
    requires InOrder(want, s.since)
    ensures InOrder(want + [a], s.Got(a).since)
  {
    InOrderMore(want, s.since, a);
  }

  lemma KeptFromJoin(s: Sock, h: Hooks)
    requires Inv(s) && s.st == JOIN
    ensures Inv(FromJoin(s, h))
  {
    hide InOrder;
    Nothing(s.since);
    if s.Stream() {
      Nothing(s.Got(Joined).since);
      AcceptJoined(s);
    }
  }

  lemma Nothing(have: seq<Accept>)
    ensures InOrder([], have)
  {
  }

  lemma KeptFromAuth(s: Sock, h: Hooks)
    requires Inv(s) && s.st == AUTH
    ensures Inv(FromAuth(s, h))
  {
    hide InOrder, FromJoin;
    if s.conn == Some(Rest) {
      KeptFromJoin(s.(st := JOIN), h);
    } else if h.auth > 0 {
      AcceptAuthed(s);
      KeptFromJoin(s.Got(Authed).(st := JOIN), h);
    }
  }

  lemma KeptFromConn(s: Sock, h: Hooks)
    requires Inv(s) && s.st == CONN
    ensures Inv(FromConn(s, h))
  {
    hide InOrder, FromAuth;
    Nothing(s.since);
    if h.conn > 0 {
      AcceptConnected(s);
      KeptFromAuth(s.Got(Connected).(st := AUTH), h);
    }
  }

  /** Every event keeps the invariant. */
  lemma StepInv(s: Sock, e: Event)
    requires Inv(s)
    ensures Inv(Step(s, e))
  {
    hide InOrder, FromConn, FromAuth, FromJoin;
    Nothing(s.since);
    if e.Prepare? {
      if s.st == UNK && e.h.open.Some? {
        Nothing([]);
        KeptFromConn(Sock(CONN, e.h.open, true, []), e.h);
      } else if s.st == CONN {
        KeptFromConn(s, e.h);
      } else if s.st == CONND || s.st == AUTH {
        KeptFromAuth(s.(st := AUTH), e.h);
      } else if s.st == AUTHD || s.st == JOIN {
        KeptFromJoin(s.(st := JOIN), e.h);
      }
    } else if e.Read? && s.Stream() && s.watching {
      KeptRead(s, e.r);
    }
  }

  lemma KeptRead(s: Sock, r: int)
    requires Inv(s) && s.Stream()
    ensures Inv(WsRead(s, false, r))
  {
    hide InOrder;
    Nothing(s.since);
    if s.st == CONN {
      AcceptConnected(s);
    } else if s.st == AUTH {
      AcceptAuthed(s);
    } else if s.st == JOIN {
      AcceptJoined(s);
    }
  }

  lemma AcceptConnected(s: Sock)
    requires Inv(s) && s.st == CONN
    ensures InOrder([Connected], s.Got(Connected).since)
  {
    hide InOrder;
    Nothing(s.since);
    Accepted([], s, Connected);
    assert [] + [Connected] == [Connected];
  }

  lemma AcceptAuthed(s: Sock)
    requires Inv(s) && s.st == AUTH
    ensures InOrder([Connected, Authed], s.Got(Authed).since)
  {
    hide InOrder;
    Accepted([Connected], s, Authed);
    assert [Connected] + [Authed] == [Connected, Authed];
  }

  lemma AcceptJoined(s: Sock)
    requires Inv(s) && s.st == JOIN && s.Stream()
    ensures InOrder([Connected, Authed, Joined], s.Got(Joined).since)
  {
    hide InOrder;
    Accepted([Connected, Authed], s, Joined);
    assert [Connected, Authed] + [Joined] == [Connected, Authed, Joined];
  }

  /** Safety of every run: the invariant holds whatever happens, in whatever order. */
  lemma {:induction false} RunInv(es: seq<Event>)
    ensures Inv(Run(START, es))
    decreases |es|
  {
    hide Inv, Step;
    if es == [] {
      StartInv();
    } else {
      RunInv(es[..|es| - 1]);
      StepInv(Run(START, es[..|es| - 1]), es[|es| - 1]);
    }
  }

  lemma StartInv()
    ensures Inv(START)
  {
  }

  /**
   * A web socket has joined only when it is open and watched, and since it was opened connection,
   * authentication and join were accepted, in this order.
   */
  lemma JoinedSafely(es: seq<Event>)
    requires Run(START, es).st == JOIND && Run(START, es).conn != Some(Rest)
    ensures var s := Run(START, es);
      s.conn.Some? && s.watching && InOrder([Connected, Authed, Joined], s.since)
  {
    hide Run;
    RunInv(es);
  }

  /** A socket that is connecting, authenticating, joining or has joined is open and watched. */
  lemma LiveOpen(es: seq<Event>)
    requires Live(Run(START, es).st)
    ensures Run(START, es).conn.Some? && Run(START, es).watching
  {
    hide Run;
    RunInv(es);
  }

  /** Once finished a socket stays so: it is never opened again. */
  lemma {:induction false} FinishedForGood(s: Sock, es: seq<Event>)
    requires Inv(s) && s.st == FINI
    ensures Inv(Run(s, es)) && Finished(Run(s, es).st) && Run(s, es).conn.None? && Run(s, es).since == s.since
    decreases |es|
  {
    hide InOrder;
    if es != [] {
      FinishedForGood(s, es[..|es| - 1]);
      StepInv(Run(s, es[..|es| - 1]), es[|es| - 1]);
    }
  }

  /** Open as before or finished, with at least the acceptances of before. */
  predicate Later(s: Sock, t: Sock) {
    t.st != UNK && s.since <= t.since && (t.conn == s.conn || (t.conn.None? && Finished(t.st)))
  }

  /**
   * A web socket is opened once at most: whatever comes after its opening, it is never again in the
   * state to be opened, its protocol is the same for as long as it is open, and what was accepted
   * stays accepted. (Only a REST socket that fails to read is opened again.)
   */
  lemma {:induction false} OpenedOnce(s: Sock, es: seq<Event>)
    requires Inv(s) && s.Stream()
    ensures Inv(Run(s, es)) && Later(s, Run(s, es))
    decreases |es|
  {
    hide InOrder;
    if es != [] {
      OpenedOnce(s, es[..|es| - 1]);
      var t, e := Run(s, es[..|es| - 1]), es[|es| - 1];
      StepInv(t, e);
      SinceGrows(t, e);
    }
  }

  lemma SinceGrows(s: Sock, e: Event)
    requires Inv(s) && s.st != UNK && (s.Stream() || (s.conn.None? && Finished(s.st)))
    ensures Later(s, Step(s, e))
  {
    hide InOrder, FromConn, FromAuth, FromJoin;
    if e.Prepare? {
      LaterFromConn(s, e.h);
      LaterFromAuth(s.(st := AUTH), e.h);
      LaterFromJoin(s.(st := JOIN), e.h);
    }
  }

  lemma LaterFromJoin(s: Sock, h: Hooks)
    requires s.st != UNK
    ensures Later(s, FromJoin(s, h))
  {
  }

  lemma LaterFromAuth(s: Sock, h: Hooks)
    requires s.st != UNK
    ensures Later(s, FromAuth(s, h))
  {
    hide FromJoin;
    LaterFromJoin(s.(st := JOIN), h);
    LaterFromJoin(s.Got(Authed).(st := JOIN), h);
  }

  lemma LaterFromConn(s: Sock, h: Hooks)
    requires s.st != UNK
    ensures Later(s, FromConn(s, h))
  {
    hide FromAuth;
    LaterFromAuth(s.Got(Connected).(st := AUTH), h);
  }

  // ---- the callbacks

  class Context {
    const ns: nat
    const st: array<St>
    const ws: array<Option<Proto>>  // what is connected, if anything
    const watcher: array<bool>

    ghost var since: seq<seq<Accept>>

    constructor (ns: nat)
      ensures Valid() && this.ns == ns && fresh(st) && fresh(ws) && fresh(watcher)
      ensures forall i :: 0 <= i < ns ==> At(i) == START
    {
      this.ns := ns;
      st, ws, watcher := new St[ns](_ => UNK), new Option<Proto>[ns](_ => None), new bool[ns](_ => false);
      since := seq(ns, _ => []);
    }

    ghost predicate Valid()
      reads this
    {
      st.Length == ns && ws.Length == ns && watcher.Length == ns && |since| == ns
    }

    ghost function At(i: nat): Sock
      requires Valid() && i < ns
      reads this, st, ws, watcher
    {
      Sock(st[i], ws[i], watcher[i], since[i])
    }

    ghost method Note(i: nat, a: Accept)
      requires Valid() && i < ns
      modifies this
      ensures Valid() && since == old(since)[i := old(since)[i] + [a]]
    {
      since := since[i := since[i] + [a]];
    }

    /** Opens the socket, or not: `proto` is nothing if that fails or the protocol is unknown. */
    method OpenCoin(i: nat, proto: Option<Proto>) returns (r: int)
      requires Valid() && i < ns
      modifies this, st, ws, watcher
      ensures Valid() && (forall j :: 0 <= j < ns && j != i ==> At(j) == old(At(j)))
      ensures r < 0 <==> proto.None?
      ensures proto.Some? ==> At(i) == Sock(UNK, proto, true, [])
      ensures proto.None? ==> At(i) == old(At(i)).(conn := None)
    {
      ws[i] := proto;
      if proto.None? {
        return -1;
      }
      watcher[i], st[i] := true, UNK;
      since := since[i := []];
      r := 1;
    }

    method FiniCoin(i: nat)
      requires Valid() && i < ns
      modifies ws, watcher
      ensures At(i) == old(At(i)).(conn := None, watching := false)
      ensures forall j :: 0 <= j < ns && j != i ==> At(j) == old(At(j))
    {
      watcher[i] := false;
      ws[i] := None;
    }

    /** `prepare` at one socket: the cases of its switch fall through from one to the next. */
    method PrepareOne(i: nat, h: Hooks)
      requires Valid() && i < ns
      modifies this, st, ws, watcher
      ensures Valid() && At(i) == Prepared(old(At(i)), h)
      ensures forall j :: 0 <= j < ns && j != i ==> At(j) == old(At(j))
    {
      hide FromConn, FromAuth, FromJoin, FromJoind;
      match st[i]
      case UNK =>
        var r := OpenCoin(i, h.open);
        if r < 0 {
          Disconnect(i);
        } else {
          st[i] := CONN;
          CaseConn(i, h);
        }
      case CONN => CaseConn(i, h);
      case CONND =>
        st[i] := AUTH;
        CaseAuth(i, h);
      case AUTH => CaseAuth(i, h);
      case AUTHD =>
        st[i] := JOIN;
        CaseJoin(i, h);
      case JOIN => CaseJoin(i, h);
      case JOIND => CaseJoind(i, h);
      case NODATA => Disconnect(i);
      case INTR => Disconnect(i);
      case FINI =>
    }

    method CaseConn(i: nat, h: Hooks)
      requires Valid() && i < ns && st[i] == CONN
      modifies this, st, ws, watcher
      ensures Valid() && At(i) == FromConn(old(At(i)), h)
      ensures forall j :: 0 <= j < ns && j != i ==> At(j) == old(At(j))
    {
      hide FromAuth;
      if h.conn < 0 {
        Disconnect(i);
      } else if h.conn > 0 {
        Note(i, Connected);
        st[i] := AUTH;
        CaseAuth(i, h);
      }
    }

    method CaseAuth(i: nat, h: Hooks)
      requires Valid() && i < ns && st[i] == AUTH
      modifies this, st, ws, watcher
      ensures Valid() && At(i) == FromAuth(old(At(i)), h)
      ensures forall j :: 0 <= j < ns && j != i ==> At(j) == old(At(j))
    {
      hide FromJoin;
      if ws[i] != Some(Rest) {
        if h.auth < 0 {
          st[i] := CONND;
          return;
        } else if h.auth == 0 {
          return;
        }
        Note(i, Authed);
      }
      st[i] := JOIN;
      CaseJoin(i, h);
    }

    method CaseJoin(i: nat, h: Hooks)
      requires Valid() && i < ns && st[i] == JOIN
      modifies this, st, ws, watcher
      ensures Valid() && At(i) == FromJoin(old(At(i)), h)
      ensures forall j :: 0 <= j < ns && j != i ==> At(j) == old(At(j))
    {
      hide FromJoind;
      if ws[i] != Some(Rest) {
        if h.join < 0 {
          st[i] := AUTHD;
          return;
        } else if h.join == 0 {
          return;
        }
        Note(i, Joined);
      }
      st[i] := JOIND;
      CaseJoind(i, h);
    }

    method CaseJoind(i: nat, h: Hooks)
      requires Valid() && i < ns && st[i] == JOIND
      modifies st, ws, watcher
      ensures At(i) == FromJoind(old(At(i)), h)
      ensures forall j :: 0 <= j < ns && j != i ==> At(j) == old(At(j))
    {
      if ws[i] != Some(Rest) && h.idle {
        Disconnect(i);
      }
    }

    method Disconnect(i: nat)
      requires Valid() && i < ns
      modifies st, ws, watcher
      ensures At(i) == Closed(old(At(i)))
      ensures forall j :: 0 <= j < ns && j != i ==> At(j) == old(At(j))
    {
      FiniCoin(i);
      st[i] := FINI;
    }

    /** `prepare` goes through all sockets, whatever the hooks give for each. */
    method PrepareAll(hs: seq<Hooks>)
      requires Valid() && |hs| == ns && forall i :: 0 <= i < ns ==> Inv(At(i))
      modifies this, st, ws, watcher
      ensures Valid() && forall i :: 0 <= i < ns ==> At(i) == Step(old(At(i)), Prepare(hs[i])) && Inv(At(i))
    {
      hide Inv, Prepared;
      for i := 0 to ns
        invariant Valid() && forall j :: i <= j < ns ==> At(j) == old(At(j))
        invariant forall j :: 0 <= j < i ==> At(j) == Step(old(At(j)), Prepare(hs[j])) && Inv(At(j))
      {
        StepInv(At(i), Prepare(hs[i]));
        PrepareOne(i, hs[i]);
      }
    }

    /** Reads of `ws_cb` and `sio3_cb`; `r` is what the hook for the state makes of what was read. */
    method WsCb(i: nat, fail: bool, r: int)
      requires Valid() && i < ns && watcher[i] && ws[i] != Some(Rest)
      modifies this, st
      ensures Valid() && At(i) == Step(old(At(i)), Read(fail, r)) && (Inv(old(At(i))) ==> Inv(At(i)))
      ensures forall j :: 0 <= j < ns && j != i ==> At(j) == old(At(j))
    {
      hide Inv;
      if Inv(At(i)) {
        StepInv(At(i), Read(fail, r));
      }
      if fail {
        return;
      }
      if st[i] == UNK {
        st[i] := CONN;
      }
      if st[i] == CONN {
        if r < 0 {
          return;
        } else if r > 0 {
          Note(i, Connected);
          st[i] := CONND;
        }
      } else if st[i] == AUTH {
        if r > 0 {
          Note(i, Authed);
          st[i] := AUTHD;
        }
      } else if st[i] == JOIN && r > 0 {
        Note(i, Joined);
        st[i] := JOIND;
      }
    }

    method RestCb(i: nat, fail: bool)
      requires Valid() && i < ns && watcher[i] && ws[i] == Some(Rest)
      modifies st, ws, watcher
      ensures At(i) == Step(old(At(i)), Read(fail, 0)) && (Inv(old(At(i))) ==> Inv(At(i)))
      ensures forall j :: 0 <= j < ns && j != i ==> At(j) == old(At(j))
    {
      hide Inv;
      if Inv(At(i)) {
        StepInv(At(i), Read(fail, 0));
      }
      if fail {
        watcher[i] := false;
        ws[i] := None;
        st[i] := UNK;
      }
    }

    /** The heartbeat fails, or there was nothing for too long, if `dead`. */
    method HbeatCb(i: nat, dead: bool)
      requires Valid() && i < ns
      modifies st
      ensures At(i) == Step(old(At(i)), Beat(dead)) && (Inv(old(At(i))) ==> Inv(At(i)))
      ensures forall j :: 0 <= j < ns && j != i ==> At(j) == old(At(j))
    {
      if Inv(At(i)) {
        StepInv(At(i), Beat(dead));
      }
      if dead {
        st[i] := NODATA;
      }
    }

    method SigintCb()
      requires Valid() && forall i :: 0 <= i < ns ==> Inv(At(i))
      modifies st
      ensures forall i :: 0 <= i < ns ==> At(i) == Step(old(At(i)), Interrupt) && Inv(At(i))
    {
      hide Inv, InOrder, Prepared;
      for i := 0 to ns
        invariant forall j :: i <= j < ns ==> At(j) == old(At(j))
        invariant forall j :: 0 <= j < i ==> At(j) == Step(old(At(j)), Interrupt) && Inv(At(j))
      {
        StepInv(At(i), Interrupt);
        st[i] := INTR;
      }
    }
  }
}
