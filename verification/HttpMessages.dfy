/**
 Which messages a socket's script hears (code/http_websocket_client.hpp, 848-880), read off
 the parts the library delivered: whole messages that are not too long, with all their bytes.
 */
module HttpMessages {
  import opened HttpWs
  import opened HttpOutcomes

  // ---- the parts of a message ------------------------------------------------------------

  /** The connection of this socket is gone, or could not be made. */
  predicate Loses(e: Event, id: nat) {
    e == WsDestroyed(id) || (e.WsReconnects? && e.id == id && e.outcome.NotStarted?)
  }

  /** The bytes that came since the last end of a message, or of the connection. */
  function Gathered(es: seq<Event>, id: nat): nat {
    if es == [] then 0
    else
      var e := es[|es| - 1];
      if Loses(e, id) then 0
      else if e.WsReceives? && e.id == id then if e.last then 0 else Gathered(es[..|es| - 1], id) + e.len
      else Gathered(es[..|es| - 1], id)
  }

  lemma GatheredGrows(es: seq<Event>, e: Event, id: nat)
    ensures Gathered(es + [e], id) ==
            if Loses(e, id) then 0
            else if e.WsReceives? && e.id == id then if e.last then 0 else Gathered(es, id) + e.len
            else Gathered(es, id)
  {
    var all := es + [e];
    assert all[..|all| - 1] == es && all[|all| - 1] == e;
  }

  /** The buffer holds so many bytes, or has dropped them as too many. */
  ghost predicate Buffers(w: Ws, bytes: nat) {
    if bytes <= MAX_STRING then !w.rxDrop && w.rx == bytes else w.rxDrop
  }

  lemma PartIsBuffered(w: Ws, bytes: nat, len: nat)
    requires Buffers(w, bytes)
    ensures Buffers(Buffered(w, len), bytes + len)
  {
  }

  // ---- what each event does to a buffer ------------------------------------------------------

  ghost predicate SameBuffer(w: Ws, v: Ws) {
    v.rx == w.rx && v.rxDrop == w.rxDrop
  }

  /** All sockets but this one keep their buffers, and none is new. */
  ghost predicate OthersKeep(s: State, t: State, id: nat) {
    forall k {:trigger k in t.sockets} :: k in t.sockets && k != id ==>
      k in s.sockets && SameBuffer(s.sockets[k], t.sockets[k])
  }

  lemma WsEndedEmpties(s: State, id: nat, w: Ws)
    ensures var t := WsEnded(s, id, w);
            OthersKeep(s, t, id) && id in t.sockets && Buffers(t.sockets[id], 0)
  {
  }

  lemma ConnectBuffers(s: State, id: nat, w: Ws, outcome: Outcome)
    ensures var t := Connect(s, id, w, outcome);
            && OthersKeep(s, t, id) && id in t.sockets
            && if outcome.Started? then SameBuffer(w, t.sockets[id]) else Buffers(t.sockets[id], 0)
  {
    hide WsEnded;
    if outcome.NotStarted? {
      WsEndedEmpties(s, id,
          w.(killed := false, waiting := false, err := if w.err == [] then outcome.msg else w.err));
    }
  }

  lemma WsOpenBuffers(s: State, e: Event)
    requires e.DoWsOpen?
    ensures var t := WsOpen(s, e.bad, e.outcome, e.reconnects, e.hears);
            OthersKeep(s, t, s.nextId) && (s.nextId !in s.sockets && s.nextId in t.sockets ==>
              Buffers(t.sockets[s.nextId], 0))
  {
    hide WsEnded;
    hide Connect;
    var i := FreeSlot(s.slots);
    if i < |s.slots| {
      var id := s.nextId;
      var w := Ws(s.gen, i, false, false, e.bad, false, false, false, false, e.reconnects, false, 0, false, e.hears);
      var t := s.(nextId := id + 1, slots := s.slots[i := Holds(id)], sockets := s.sockets[id := w]);
      WsEndedEmpties(t, id, w.(reconnects := false));
      ConnectBuffers(t, id, w, e.outcome);
    }
  }

  lemma ReceiveBuffers(s: State, id: nat, w: Ws, len: nat, last: bool)
    ensures var t := Receive(s, id, w, len, last);
            && OthersKeep(s, t, id) && id in t.sockets
            && if last then Buffers(t.sockets[id], 0) else SameBuffer(Buffered(w, len), t.sockets[id])
  {
    hide Buffered;
  }

  /** Events about requests, levels and frames leave buffers alone. */
  lemma OtherBuffers(s: State, e: Event, id: nat)
    requires Enabled(s, e) && id in Next(s, e).sockets
    requires !e.DoWsOpen? && !e.WsDestroyed? && !e.WsReconnects? && !e.WsReceives?
    ensures id in s.sockets && SameBuffer(s.sockets[id], Next(s, e).sockets[id])
  {
    hide ReqEnded;
    hide Finish;
    hide Fetch;
    hide Established;
    hide Killed;
    hide Shut;
    KilledAndShutKeep();
    match e
    case DoFetch(_, _, _, _) => FetchSpares(s, e);
    case ReqDestroyed(k) => ReqEndedSpares(s, k, s.reqs[k]);
    case ReqCompleted(k) => FinishSpares(s, k, s.reqs[k]);
    case WsEstablished(k) => EstablishedBuffers(s, k, s.sockets[k]);
    case _ =>
  }

  lemma KilledAndShutKeep()
    ensures forall w, msg :: SameBuffer(w, Killed(w, msg))
    ensures forall w :: SameBuffer(w, Shut(w))
  {
  }

  lemma EstablishedBuffers(s: State, id: nat, w: Ws)
    requires id in s.sockets && s.sockets[id] == w
    ensures forall k :: k in Established(s, id, w).sockets ==>
      k in s.sockets && SameBuffer(s.sockets[k], Established(s, id, w).sockets[k])
  {
  }

  lemma FinishSpares(s: State, id: nat, r: Req)
    ensures Finish(s, id, r).sockets == s.sockets
  {
  }

  lemma ReqEndedSpares(s: State, id: nat, r: Req)
    ensures ReqEnded(s, id, r).sockets == s.sockets
  {
  }

  lemma FetchSpares(s: State, e: Event)
    requires e.DoFetch?
    ensures Fetch(s, e.bad, e.outcome, e.hasDone, e.hasError).sockets == s.sockets
  {
  }

  /** One event and one socket's buffer. */
  lemma StepBuffers(s: State, e: Event, es: seq<Event>, id: nat)
    requires Invariant(s) && Enabled(s, e) && id in Next(s, e).sockets
    requires if id in s.sockets then Buffers(s.sockets[id], Gathered(es, id)) else Gathered(es, id) == 0
    ensures Buffers(Next(s, e).sockets[id], Gathered(es + [e], id))
  {
    GatheredGrows(es, e, id);
    SocketIdsOk(s);
    hide Invariant;
    hide WsEnded;
    hide Connect;
    hide WsOpen;
    hide Receive;
    hide Buffered;
    hide Fetch;
    hide ReqEnded;
    hide Finish;
    hide Established;
    hide Killed;
    hide Shut;
    hide Gathered;
    match e
    case DoWsOpen(_, _, _, _) => WsOpenBuffers(s, e);
    case WsDestroyed(k) => WsEndedEmpties(s, k, s.sockets[k]);
    case WsReconnects(k, outcome) => ConnectBuffers(s, k, s.sockets[k], outcome);
    case WsReceives(k, len, last) =>
      ReceiveBuffers(s, k, s.sockets[k], len, last);
      if k == id {
        PartIsBuffered(s.sockets[k], Gathered(es, id), len);
      }
    case _ => OtherBuffers(s, e, id);
  }

  lemma SocketIdsOk(s: State)
    requires Invariant(s)
    ensures forall id | id in s.sockets :: id < s.nextId
  {
  }

  // ---- whole runs --------------------------------------------------------------------------------

  /** A socket not opened yet has received nothing. */
  lemma {:induction false} NewHasGatheredNothing(states: seq<State>, events: seq<Event>, k: nat, id: nat)
    requires IsRun(states, events) && k < |states| && id !in states[k].sockets
    requires forall j :: 0 <= j < k ==> id !in states[j].sockets
    ensures Gathered(events[..k], id) == 0
    decreases k
  {
    hide Invariant;
    hide Next;
    hide Enabled;
    hide Gathered;
    if k == 0 {
      NothingGathered(id);
    } else {
      NewHasGatheredNothing(states, events, k - 1, id);
      NextEvents(events, k - 1);
      GatheredGrows(events[..k - 1], events[k - 1], id);
      OnlyOpenReceive(states[k - 1], events[k - 1], id);
    }
  }

  lemma NothingGathered(id: nat)
    ensures Gathered([], id) == 0
  {
  }

  lemma OnlyOpenReceive(s: State, e: Event, id: nat)
    requires Enabled(s, e)
    ensures e.WsReceives? && e.id == id ==> id in s.sockets
  {
  }

  lemma {:induction false} RunBuffers(states: seq<State>, events: seq<Event>, k: nat, id: nat)
    requires IsRun(states, events) && k < |states| && id in states[k].sockets
    ensures Buffers(states[k].sockets[id], Gathered(events[..k], id))
    decreases k
  {
    hide Invariant;
    hide Next;
    hide Enabled;
    hide Buffers;
    if k == 0 {
      NoSocketsYet(states, events);
      assert false;
    }
    var s, e := states[k - 1], events[k - 1];
    assert Enabled(s, e) && states[k] == Next(s, e);
    RunKeeps(states, events, k - 1);
    NextEvents(events, k - 1);
    if id in s.sockets {
      RunBuffers(states, events, k - 1, id);
    } else {
      OpenedOnce(states, events, k - 1, id);
      NewHasGatheredNothing(states, events, k - 1, id);
    }
    StepBuffers(s, e, events[..k - 1], id);
  }

  lemma NoSocketsYet(states: seq<State>, events: seq<Event>)
    requires IsRun(states, events)
    ensures states[0].sockets == map[]
  {
  }

  /** A socket that appears was never there before: numbers are given out once. */
  lemma OpenedOnce(states: seq<State>, events: seq<Event>, k: nat, id: nat)
    requires IsRun(states, events) && k < |events| && id !in states[k].sockets && id in states[k + 1].sockets
    ensures forall j :: 0 <= j <= k ==> id !in states[j].sockets
  {
    var s, e := states[k], events[k];
    assert Enabled(s, e) && states[k + 1] == Next(s, e);
    Appears(s, e, id);
    hide Next;
    hide Enabled;
    forall j | 0 <= j <= k ensures id !in states[j].sockets {
      RunKeeps(states, events, j);
      SocketIdsOk(states[j]);
      RunNumbersRise(states, events, j, k);
    }
    hide Invariant;
  }

  lemma Appears(s: State, e: Event, id: nat)
    requires Enabled(s, e) && id in Next(s, e).sockets && id !in s.sockets
    ensures id == s.nextId
  {
    hide WsEnded;
    hide Connect;
    hide WsOpen;
    hide Receive;
    match e
    case DoWsOpen(_, _, _, _) => WsOpenBuffers(s, e);
    case WsDestroyed(k) => WsEndedEmpties(s, k, s.sockets[k]);
    case WsReconnects(k, outcome) => ConnectBuffers(s, k, s.sockets[k], outcome);
    case WsReceives(k, len, last) => ReceiveBuffers(s, k, s.sockets[k], len, last);
    case _ => OtherBuffers(s, e, id);
  }

  /**
   At the end of a message the script hears it with all its bytes, unless they are too many, it does not
   listen or its level is over; and a full queue then kills the connection.
   */
  lemma MessageIsHeard(states: seq<State>, events: seq<Event>, i: nat)
    requires IsRun(states, events) && i < |events| && events[i].WsReceives? && events[i].last
    ensures var s, t, id := states[i], states[i + 1], events[i].id;
            && id in s.sockets && id in t.sockets
            && var w, total := s.sockets[id], Gathered(events[..i], id) + events[i].len;
            && t.told == s.told + (if total <= MAX_STRING && !w.detached && w.hears.message
                                   then [Note(id, Message, total, w.level)] else [])
            && (t.sockets[id].killed <==> w.killed || t.rxBytes > RX_QUEUE_MAX)
  {
    var s, e := states[i], events[i];
    assert Enabled(s, e) && states[i + 1] == Next(s, e);
    RunBuffers(states, events, i, e.id);
    RunKeeps(states, events, i);
    HeldIsLive(s, e.id);
    hide Invariant;
    hide IsRun;
    hide Receive;
    PartIsBuffered(s.sockets[e.id], Gathered(events[..i], e.id), e.len);
    EndTells(s, e.id, s.sockets[e.id], e.len, Gathered(events[..i], e.id) + e.len);
  }

  lemma EndTells(s: State, id: nat, w: Ws, len: nat, total: nat)
    requires w.live && Buffers(Buffered(w, len), total)
    ensures var t := Receive(s, id, w, len, true);
            && id in t.sockets
            && t.told == s.told + (if total <= MAX_STRING && !w.detached && w.hears.message
                                   then [Note(id, Message, total, w.level)] else [])
            && (t.sockets[id].killed <==> w.killed || t.rxBytes > RX_QUEUE_MAX)
  {
    BufferedIsLive(w, len);
    hide Buffered;
  }

  lemma BufferedIsLive(w: Ws, len: nat)
    ensures var v := Buffered(w, len);
            v.live == w.live && v.killed == w.killed && v.detached == w.detached && v.hears == w.hears
            && v.level == w.level
  {
  }

  // ---- and nothing else tells a message ----------------------------------------------------------------

  /** No message is told. */
  ghost predicate Mute(s: State, t: State) {
    forall n {:trigger n in t.told} :: n in t.told && n.what.Message? ==> n in s.told
  }

  lemma TellIsMute(s: State, wanted: bool, n: Note)
    requires !n.what.Message?
    ensures Mute(s, TellIf(s, wanted, n))
  {
  }

  lemma MuteTwice(s: State, t: State, u: State)
    requires Mute(s, t) && Mute(t, u)
    ensures Mute(s, u)
  {
  }

  lemma WsEndedIsMute(s: State, id: nat, w: Ws)
    ensures Mute(s, WsEnded(s, id, w))
  {
    hide TellIf;
    hide Mute;
    var again := !w.closing && w.reconnects;
    var v := w.(live := false, connected := false, rx := 0, rxDrop := false, waiting := again,
        finished := w.finished || !again, err := []);
    var t := s.(held := s.held - {id}, sockets := s.sockets[id := v]);
    var wanted, error := w.err != [] && !w.closing && w.hears.error, Note(id, Error, |w.err|, w.level);
    var heard := w.connected && w.hears.close;
    var closed := Note(id, Closed(!w.closing && !w.killed, v.finished), 0, w.level);
    TellIsMute(t, wanted, error);
    TellIsMute(TellIf(t, wanted, error), heard, closed);
    MuteTwice(t, TellIf(t, wanted, error), TellIf(TellIf(t, wanted, error), heard, closed));
    SameTold(s, t, WsEnded(s, id, w));
  }

  lemma SameTold(s: State, t: State, u: State)
    requires t.told == s.told && (Mute(t, u) || u == t)
    ensures Mute(s, u)
  {
  }

  lemma ConnectIsMute(s: State, id: nat, w: Ws, outcome: Outcome)
    ensures Mute(s, Connect(s, id, w, outcome))
  {
    hide WsEnded;
    if outcome.NotStarted? {
      WsEndedIsMute(s, id, w.(killed := false, waiting := false, err := if w.err == [] then outcome.msg else w.err));
    }
  }

  lemma WsOpenIsMute(s: State, e: Event)
    requires e.DoWsOpen?
    ensures Mute(s, WsOpen(s, e.bad, e.outcome, e.reconnects, e.hears))
  {
    hide WsEnded;
    hide Connect;
    var i := FreeSlot(s.slots);
    if i < |s.slots| {
      var id := s.nextId;
      var w := Ws(s.gen, i, false, false, e.bad, false, false, false, false, e.reconnects, false, 0, false, e.hears);
      var t := s.(nextId := id + 1, slots := s.slots[i := Holds(id)], sockets := s.sockets[id := w]);
      WsEndedIsMute(t, id, w.(reconnects := false));
      ConnectIsMute(t, id, w, e.outcome);
    }
  }

  lemma EstablishedIsMute(s: State, id: nat, w: Ws)
    ensures Mute(s, Established(s, id, w))
  {
  }

  lemma FinishIsMute(s: State, id: nat, r: Req)
    ensures Mute(s, Finish(s, id, r))
  {
  }

  lemma ReqEndedIsMute(s: State, id: nat, r: Req)
    ensures Mute(s, ReqEnded(s, id, r))
  {
    hide Finish;
    FinishIsMute(s.(held := s.held - {id}), id,
        r.(live := false, err := if r.err == [] then UNEXPECTED else r.err));
  }

  lemma FetchIsMute(s: State, e: Event)
    requires e.DoFetch?
    ensures Mute(s, Fetch(s, e.bad, e.outcome, e.hasDone, e.hasError))
  {
    hide Finish;
    hide ReqEnded;
    var id, r := s.nextId, Req(s.gen, false, false, e.bad, false, 0, e.hasDone, e.hasError);
    var t := s.(nextId := id + 1);
    FinishIsMute(t, id, r);
    if e.outcome.NotStarted? {
      ReqEndedIsMute(t, id, r.(err := e.outcome.msg));
    }
  }

  /** No other event tells a message, and a part that is not the last tells nothing. */
  lemma OnlyEndsTellMessages(states: seq<State>, events: seq<Event>, i: nat)
    requires IsRun(states, events) && i < |events| && !(events[i].WsReceives? && events[i].last)
    ensures Mute(states[i], states[i + 1])
  {
    var s, e := states[i], events[i];
    assert Enabled(s, e) && states[i + 1] == Next(s, e);
    hide IsRun;
    hide WsEnded;
    hide Connect;
    hide WsOpen;
    hide Established;
    hide ReqEnded;
    hide Finish;
    hide Fetch;
    hide Killed;
    hide Shut;
    match e
    case DoFetch(_, _, _, _) => FetchIsMute(s, e);
    case DoWsOpen(_, _, _, _) => WsOpenIsMute(s, e);
    case ReqDestroyed(id) => ReqEndedIsMute(s, id, s.reqs[id]);
    case ReqCompleted(id) => FinishIsMute(s, id, s.reqs[id]);
    case WsDestroyed(id) => WsEndedIsMute(s, id, s.sockets[id]);
    case WsReconnects(id, outcome) => ConnectIsMute(s, id, s.sockets[id], outcome);
    case WsEstablished(id) => EstablishedIsMute(s, id, s.sockets[id]);
    case _ =>
  }
}
