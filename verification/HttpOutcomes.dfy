/**
 Which outcome a request gets (code/http_websocket_client.hpp, 63-99 and 554-586), read off
 the events of a run: what the library sent and the timers did before its end.
 */
module HttpOutcomes {
  import opened HttpWs

  // ---- what has happened to a request ------------------------------------------------------

  /** Its response was complete. */
  function Completes(es: seq<Event>, id: nat): bool {
    es != [] && (es[|es| - 1] == ReqCompleted(id) || Completes(es[..|es| - 1], id))
  }

  function Kills(es: seq<Event>, id: nat): bool {
    es != [] && ((es[|es| - 1].ReqKilled? && es[|es| - 1].id == id) || Kills(es[..|es| - 1], id))
  }

  /** The bytes of its body so far. */
  function BodyOf(es: seq<Event>, id: nat): nat {
    if es == [] then 0
    else
      var e := es[|es| - 1];
      BodyOf(es[..|es| - 1], id) + if e.ReqBody? && e.id == id then e.len else 0
  }

  /** The message it would fail with: the first, or a later one of the library that overwrites it; one kill counts. */
  function ErrorText(es: seq<Event>, id: nat): string {
    if es == [] then []
    else
      var e, before := es[|es| - 1], ErrorText(es[..|es| - 1], id);
      if e.ReqError? && e.id == id && (before == [] || e.overwrites) then e.msg
      else if e.ReqKilled? && e.id == id && before == [] && !Kills(es[..|es| - 1], id) then e.msg
      else before
  }

  /** An error, or a first kill that brings a message. */
  ghost predicate Blames(es: seq<Event>, j: nat, id: nat) {
    && j < |es|
    && (es[j].ReqError? || (es[j].ReqKilled? && es[j].msg != [] && !Kills(es[..j], id)))
    && es[j].id == id
  }

  /** There is a message exactly when something is to blame. */
  lemma {:induction false} ErrorTextExactly(es: seq<Event>, id: nat)
    requires forall j :: 0 <= j < |es| && es[j].ReqError? ==> es[j].msg != []
    ensures ErrorText(es, id) != [] <==> exists j :: Blames(es, j, id)
    decreases |es|
  {
    if es != [] {
      var k := |es| - 1;
      var before := es[..k];
      ErrorTextExactly(before, id);
      forall j | 0 <= j < k ensures Blames(es, j, id) <==> Blames(before, j, id) {
        assert es[..j] == before[..j];
      }
      if ErrorText(es, id) != [] {
        if ErrorText(before, id) == [] {
          assert Blames(es, k, id);
        } else {
          var j :| Blames(before, j, id);
          assert Blames(es, j, id);
        }
      } else {
        forall j: nat ensures !Blames(es, j, id) {
        }
      }
    }
  }

  // ---- the state remembers the events ----------------------------------------------------------

  /** The c-th event asked for this request, and it was handed to the library. */
  ghost predicate Made(states: seq<State>, events: seq<Event>, c: nat, id: nat, r: Req)
    requires |states| == |events| + 1
  {
    && c < |events| && events[c].DoFetch? && states[c].nextId == id
    && events[c].bad == [] && events[c].outcome.Started?
    && r.level == states[c].gen && r.hasDone == events[c].hasDone && r.hasError == events[c].hasError
  }

  ghost predicate Remembers(r: Req, es: seq<Event>, id: nat) {
    && (r.reported <==> Completes(es, id))
    && (r.killed <==> Kills(es, id))
    && r.err == ErrorText(es, id)
    && r.body == BodyOf(es, id)
  }

  ghost predicate Remembered(states: seq<State>, events: seq<Event>, k: nat)
    requires |states| == |events| + 1 && k < |states|
  {
    forall id {:trigger id in states[k].reqs} | id in states[k].reqs :: states[k].reqs[id].live ==>
      Remembers(states[k].reqs[id], events[..k], id)
      && exists c :: 0 <= c < k && Made(states, events, c, id, states[k].reqs[id])
  }

  /** The event is about this request. */
  predicate Concerns(e: Event, id: nat) {
    match e
    case ReqDestroyed(i) => i == id
    case ReqError(i, _, _) => i == id
    case ReqBody(i, _) => i == id
    case ReqCompleted(i) => i == id
    case ReqKilled(i, _) => i == id
    case _ => false
  }

  ghost predicate Untouched(es: seq<Event>, id: nat) {
    !Completes(es, id) && !Kills(es, id) && ErrorText(es, id) == [] && BodyOf(es, id) == 0
  }

  lemma OneMoreEvent(es: seq<Event>, e: Event, id: nat)
    ensures (es + [e])[..|es|] == es
    ensures !Concerns(e, id) && Untouched(es, id) ==> Untouched(es + [e], id)
    ensures forall r :: !Concerns(e, id) && Remembers(r, es, id) ==> Remembers(r, es + [e], id)
  {
    assert (es + [e])[..|es|] == es;
  }

  lemma NextEvents(events: seq<Event>, k: nat)
    requires k < |events|
    ensures events[..k + 1] == events[..k] + [events[k]]
  {
  }

  lemma KnownNumber(s: State, e: Event, id: nat)
    requires Invariant(s) && Enabled(s, e) && Concerns(e, id)
    ensures id in s.reqs && s.reqs[id].live && id < s.nextId
  {
  }

  // ---- what each event does for requests ---------------------------------------------------------

  /** No request changes, and no outcome is told. */
  ghost predicate Spares(s: State, t: State) {
    && t.reqs == s.reqs && t.gen == s.gen && t.nextId >= s.nextId && s.told <= t.told
    && forall n {:trigger n in t.told} :: n in t.told && (n.what.Done? || n.what.Failed?) ==> n in s.told
  }

  lemma TellSpares(s: State, wanted: bool, n: Note)
    requires !n.what.Done? && !n.what.Failed?
    ensures Spares(s, TellIf(s, wanted, n))
  {
  }

  lemma SparesTwice(s: State, t: State, u: State)
    requires Spares(s, t) && Spares(t, u)
    ensures Spares(s, u)
  {
  }

  lemma WsEndedSpares(s: State, id: nat, w: Ws)
    ensures Spares(s, WsEnded(s, id, w))
  {
    hide TellIf;
    var again := !w.closing && w.reconnects;
    var v := w.(live := false, connected := false, rx := 0, rxDrop := false, waiting := again,
        finished := w.finished || !again, err := []);
    var t := s.(held := s.held - {id}, sockets := s.sockets[id := v]);
    var wanted, error := w.err != [] && !w.closing && w.hears.error, Note(id, Error, |w.err|, w.level);
    var closed := Note(id, Closed(!w.closing && !w.killed, v.finished), 0, w.level);
    TellSpares(t, wanted, error);
    TellSpares(TellIf(t, wanted, error), w.connected && w.hears.close, closed);
    SparesTwice(t, TellIf(t, wanted, error),
        TellIf(TellIf(t, wanted, error), w.connected && w.hears.close, closed));
  }

  lemma ConnectSpares(s: State, id: nat, w: Ws, outcome: Outcome)
    ensures Spares(s, Connect(s, id, w, outcome))
  {
    hide WsEnded;
    var v := w.(killed := false, waiting := false,
        err := if w.err == [] && outcome.NotStarted? then outcome.msg else w.err);
    WsEndedSpares(s, id, v);
  }

  lemma WsOpenSpares(s: State, bad: string, outcome: Outcome, reconnects: bool, hears: Hears)
    ensures Spares(s, WsOpen(s, bad, outcome, reconnects, hears))
  {
    hide WsEnded;
    hide Connect;
    var i := FreeSlot(s.slots);
    if i < |s.slots| {
      var id := s.nextId;
      var w := Ws(s.gen, i, false, false, bad, false, false, false, false, reconnects, false, 0, false, hears);
      var t := s.(nextId := id + 1, slots := s.slots[i := Holds(id)], sockets := s.sockets[id := w]);
      WsEndedSpares(t, id, w.(reconnects := false));
      ConnectSpares(t, id, w, outcome);
    }
  }

  lemma ReceiveSpares(s: State, id: nat, w: Ws, len: nat, last: bool)
    ensures Spares(s, Receive(s, id, w, len, last))
  {
    hide TellIf;
    hide Buffered;
    hide Killed;
    var v := Buffered(w, len);
    TellSpares(s, !v.rxDrop && !v.detached && v.hears.message, Note(id, Message, v.rx, v.level));
  }

  lemma EstablishedSpares(s: State, id: nat, w: Ws)
    ensures Spares(s, Established(s, id, w))
  {
    hide TellIf;
    var t := s.(sockets := s.sockets[id := w.(connected := true)]);
    TellSpares(t, !w.detached && w.hears.open, Note(id, Opened, 0, w.level));
  }

  predicate AboutSockets(e: Event) {
    e.DoWsOpen? || e.DoWsClose? || e.WsDestroyed? || e.WsError? || e.WsEstablished? || e.WsReceives? || e.WsKilled?
    || e.WsReconnects?
  }

  lemma SocketEventSpares(s: State, e: Event)
    requires Enabled(s, e) && AboutSockets(e)
    ensures Spares(s, Next(s, e))
  {
    hide WsEnded;
    hide Connect;
    hide WsOpen;
    hide Receive;
    hide Established;
    hide Killed;
    hide Shut;
    match e
    case DoWsOpen(bad, outcome, reconnects, hears) => WsOpenSpares(s, bad, outcome, reconnects, hears);
    case WsDestroyed(id) => WsEndedSpares(s, id, s.sockets[id]);
    case WsEstablished(id) => EstablishedSpares(s, id, s.sockets[id]);
    case WsReceives(id, len, last) => ReceiveSpares(s, id, s.sockets[id], len, last);
    case WsReconnects(id, outcome) => ConnectSpares(s, id, s.sockets[id], outcome);
    case _ =>
  }

  lemma NumbersRise(s: State, e: Event)
    requires Enabled(s, e)
    ensures Next(s, e).nextId >= s.nextId + if e.DoFetch? then 1 else 0
    ensures s.told <= Next(s, e).told
  {
    if AboutSockets(e) {
      SocketEventSpares(s, e);
    } else {
      hide WsEnded;
      hide Connect;
      hide WsOpen;
      hide Receive;
      hide Established;
      hide Killed;
    }
  }

  /** A number not given out yet has no history. */
  lemma {:induction false} NewHasNoHistory(states: seq<State>, events: seq<Event>, k: nat, id: nat)
    requires IsRun(states, events) && k < |states| && id >= states[k].nextId
    ensures Untouched(events[..k], id)
    decreases k
  {
    hide Invariant;
    hide Next;
    hide Enabled;
    if k > 0 {
      assert Enabled(states[k - 1], events[k - 1]) && states[k] == Next(states[k - 1], events[k - 1]);
      NumbersRise(states[k - 1], events[k - 1]);
      NewHasNoHistory(states, events, k - 1, id);
      RunKeeps(states, events, k - 1);
      NextEvents(events, k - 1);
      OneMoreEvent(events[..k - 1], events[k - 1], id);
      if Concerns(events[k - 1], id) {
        KnownNumber(states[k - 1], events[k - 1], id);
      }
    }
  }

  /** A live request after an event: it was there with this history, or it has just been handed over. */
  lemma LiveAfter(s: State, e: Event, es: seq<Event>, id: nat)
    requires Invariant(s) && Enabled(s, e) && id in Next(s, e).reqs && Next(s, e).reqs[id].live
    ensures id in s.reqs && s.reqs[id].live ==>
      var r, v := s.reqs[id], Next(s, e).reqs[id];
      && v.level == r.level && v.hasDone == r.hasDone && v.hasError == r.hasError
      && (Remembers(r, es, id) ==> Remembers(v, es + [e], id))
    ensures !(id in s.reqs && s.reqs[id].live) ==>
      && e.DoFetch? && e.bad == [] && e.outcome.Started? && id == s.nextId
      && Next(s, e).reqs[id] == Req(s.gen, true, false, [], false, 0, e.hasDone, e.hasError)
  {
    OneMoreEvent(es, e, id);
    if AboutSockets(e) {
      SocketEventSpares(s, e);
      hide Next;
    } else if Concerns(e, id) {
      AfterOwnEvent(s, e, es, id);
    } else {
      AfterOtherEvent(s, e, id);
    }
  }

  lemma AfterOwnEvent(s: State, e: Event, es: seq<Event>, id: nat)
    requires Invariant(s) && Enabled(s, e) && Concerns(e, id) && id in Next(s, e).reqs && Next(s, e).reqs[id].live
    ensures id in s.reqs && s.reqs[id].live
    ensures var r, v := s.reqs[id], Next(s, e).reqs[id];
            && v.level == r.level && v.hasDone == r.hasDone && v.hasError == r.hasError
            && (Remembers(r, es, id) ==> Remembers(v, es + [e], id))
  {
    KnownNumber(s, e, id);
    hide Invariant;
    FinishKeepsTrack(s, id, s.reqs[id]);
    hide Finish;
    if Remembers(s.reqs[id], es, id) {
      RemembersOneMore(s, e, es, id);
    }
  }

  /** Reporting changes nothing about a request but that it is reported. */
  lemma FinishKeepsTrack(s: State, id: nat, r: Req)
    ensures Finish(s, id, r).reqs == s.reqs[id := r.(reported := true)]
  {
    if r.reported {
      assert r == r.(reported := true);
    }
  }

  lemma RemembersOneMore(s: State, e: Event, es: seq<Event>, id: nat)
    requires Enabled(s, e) && Concerns(e, id) && !e.ReqDestroyed? && id in s.reqs && Remembers(s.reqs[id], es, id)
    ensures id in Next(s, e).reqs && Remembers(Next(s, e).reqs[id], es + [e], id)
  {
    FinishKeepsTrack(s, id, s.reqs[id]);
    HistoryGrows(es, e, id);
    hide Finish;
    hide Completes;
    hide Kills;
    hide ErrorText;
    hide BodyOf;
  }

  /** One more event of a history. */
  lemma HistoryGrows(es: seq<Event>, e: Event, id: nat)
    ensures Completes(es + [e], id) == (e == ReqCompleted(id) || Completes(es, id))
    ensures Kills(es + [e], id) == ((e.ReqKilled? && e.id == id) || Kills(es, id))
    ensures BodyOf(es + [e], id) == BodyOf(es, id) + if e.ReqBody? && e.id == id then e.len else 0
    ensures var before := ErrorText(es, id);
            ErrorText(es + [e], id) ==
              if e.ReqError? && e.id == id && (before == [] || e.overwrites) then e.msg
              else if e.ReqKilled? && e.id == id && before == [] && !Kills(es, id) then e.msg
              else before
  {
    var all := es + [e];
    assert all[..|all| - 1] == es && all[|all| - 1] == e;
  }

  lemma AfterOtherEvent(s: State, e: Event, id: nat)
    requires Invariant(s) && Enabled(s, e) && !Concerns(e, id) && !AboutSockets(e) && id in Next(s, e).reqs
    requires Next(s, e).reqs[id].live
    ensures id in s.reqs ==> Next(s, e).reqs[id] == s.reqs[id]
    ensures id !in s.reqs ==>
      && e.DoFetch? && e.bad == [] && e.outcome.Started? && id == s.nextId
      && Next(s, e).reqs[id] == Req(s.gen, true, false, [], false, 0, e.hasDone, e.hasError)
  {
    if e.DoFetch? {
      NumberIsFree(s);
      hide Invariant;
      hide Finish;
      FetchedReqs(s, e);
    } else if e.ReqDestroyed? || e.ReqCompleted? {
      FinishKeepsTrack(s, e.id, s.reqs[e.id]);
      hide Invariant;
      EndedReqs(s, e.id, s.reqs[e.id]);
      hide Finish;
      hide ReqEnded;
    } else {
      hide Invariant;
    }
  }

  lemma EndedReqs(s: State, id: nat, r: Req)
    ensures exists v: Req :: !v.live && ReqEnded(s, id, r).reqs == s.reqs[id := v]
  {
    var v := r.(live := false, err := if r.err == [] then UNEXPECTED else r.err);
    FinishKeepsTrack(s.(held := s.held - {id}), id, v);
    assert ReqEnded(s, id, r).reqs == s.reqs[id := v.(reported := true)];
  }

  lemma FetchedReqs(s: State, e: Event)
    requires e.DoFetch?
    ensures var t := Fetch(s, e.bad, e.outcome, e.hasDone, e.hasError);
            if e.bad != [] then t.reqs == s.reqs
            else if e.outcome.Started? then
              t.reqs == s.reqs[s.nextId := Req(s.gen, true, false, [], false, 0, e.hasDone, e.hasError)]
            else exists v: Req :: !v.live && t.reqs == s.reqs[s.nextId := v]
  {
    hide Finish;
    if e.bad == [] && e.outcome.NotStarted? {
      var r := Req(s.gen, false, false, e.outcome.msg, false, 0, e.hasDone, e.hasError);
      EndedReqs(s.(nextId := s.nextId + 1), s.nextId, r);
      hide ReqEnded;
    }
  }

  lemma NumberIsFree(s: State)
    requires Invariant(s)
    ensures s.nextId !in s.reqs
  {
  }

  lemma StepRemembers(states: seq<State>, events: seq<Event>, k: nat)
    requires IsRun(states, events) && k < |events| && Remembered(states, events, k)
    ensures Remembered(states, events, k + 1)
  {
    var s, t, e := states[k], states[k + 1], events[k];
    assert Enabled(s, e) && t == Next(s, e);
    hide Next;
    hide Enabled;
    RunKeeps(states, events, k);
    hide Invariant;
    NextEvents(events, k);
    forall id {:trigger id in t.reqs} | id in t.reqs && t.reqs[id].live
      ensures Remembers(t.reqs[id], events[..k + 1], id)
      ensures exists c :: 0 <= c < k + 1 && Made(states, events, c, id, t.reqs[id])
    {
      LiveAfter(s, e, events[..k], id);
      if id in s.reqs && s.reqs[id].live {
        var c :| 0 <= c < k && Made(states, events, c, id, s.reqs[id]);
        assert Made(states, events, c, id, t.reqs[id]);
      } else {
        NewHasNoHistory(states, events, k, id);
        OneMoreEvent(events[..k], e, id);
        assert Made(states, events, k, id, t.reqs[id]);
      }
    }
  }

  lemma {:induction false} RunRemembers(states: seq<State>, events: seq<Event>, k: nat)
    requires IsRun(states, events) && k < |states|
    ensures Remembered(states, events, k)
  {
    hide Remembered;
    if k == 0 {
      NothingToRemember(states, events);
    } else {
      RunRemembers(states, events, k - 1);
      StepRemembers(states, events, k - 1);
    }
  }

  lemma NothingToRemember(states: seq<State>, events: seq<Event>)
    requires IsRun(states, events)
    ensures Remembered(states, events, 0)
  {
  }

  // ---- what each event tells ---------------------------------------------------------------------

  /** The message of an end: what was recorded, or that there was none. */
  function LastWord(text: string): string {
    if text == [] then UNEXPECTED else text
  }

  /** The note of an outcome, if the script hears it. */
  function Outcome(id: nat, done: bool, bytes: nat, heard: bool, level: nat): seq<Note> {
    if heard then [Note(id, if done then Done else Failed, bytes, level)] else []
  }

  predicate Ends(e: Event, id: nat) {
    e == ReqCompleted(id) || e == ReqDestroyed(id)
  }

  /** What the i-th event, an end of request id made by the c-th, tells its script. */
  ghost function Told(states: seq<State>, events: seq<Event>, c: nat, i: nat, id: nat): seq<Note>
    requires |states| == |events| + 1 && c < i < |events| && events[c].DoFetch?
  {
    var es := events[..i];
    if Completes(es, id) || states[c].gen != states[i].gen then []
    else if events[i].ReqCompleted? && ErrorText(es, id) == [] then
      Outcome(id, true, BodyOf(es, id), events[c].hasDone, states[i].gen)
    else Outcome(id, false, |LastWord(ErrorText(es, id))|, events[c].hasError, states[i].gen)
  }

  /** The end of a request that remembers its events. */
  lemma RemembersEnd(s: State, e: Event, es: seq<Event>, id: nat)
    requires Enabled(s, e) && Ends(e, id) && Remembers(s.reqs[id], es, id)
    ensures var r := s.reqs[id];
            Next(s, e).told == s.told +
              if Completes(es, id) || r.level != s.gen then []
              else if e.ReqCompleted? && ErrorText(es, id) == [] then
                Outcome(id, true, BodyOf(es, id), r.hasDone, s.gen)
              else Outcome(id, false, |LastWord(ErrorText(es, id))|, r.hasError, s.gen)
  {
    hide BodyOf;
    hide Completes;
    hide ErrorText;
    hide Kills;
  }

  lemma EndTells(states: seq<State>, events: seq<Event>, i: nat, id: nat) returns (c: nat)
    requires IsRun(states, events) && i < |events| && Ends(events[i], id)
    ensures c < i && events[c].DoFetch? && states[c].nextId == id
    ensures states[i + 1].told == states[i].told + Told(states, events, c, i, id)
  {
    var s, t, e := states[i], states[i + 1], events[i];
    assert Enabled(s, e) && t == Next(s, e);
    RunKeeps(states, events, i);
    RunRemembers(states, events, i);
    KnownNumber(s, e, id);
    hide Invariant;
    var r := s.reqs[id];
    c :| 0 <= c < i && Made(states, events, c, id, r);
    RemembersEnd(s, e, events[..i], id);
  }

  /** What is wrong with a fetch from the start, if anything. */
  function Refusal(e: Event): string
    requires e.DoFetch?
  {
    if e.bad != [] then e.bad else if e.outcome.NotStarted? then LastWord(e.outcome.msg) else []
  }

  /** A fetch that is refused or not started is told at once, any other later. */
  lemma FetchTells(states: seq<State>, events: seq<Event>, i: nat)
    requires IsRun(states, events) && i < |events| && events[i].DoFetch?
    ensures var s, e := states[i], events[i];
            states[i + 1].told == s.told +
              if Refusal(e) == [] then []
              else Outcome(s.nextId, false, |Refusal(e)|, e.hasError, s.gen)
  {
    var s, e := states[i], events[i];
    assert Enabled(s, e) && states[i + 1] == Next(s, e);
  }

  /** No other event tells an outcome. */
  lemma OthersTellNothing(states: seq<State>, events: seq<Event>, i: nat)
    requires IsRun(states, events) && i < |events|
    requires !events[i].DoFetch? && !events[i].ReqCompleted? && !events[i].ReqDestroyed?
    ensures forall n {:trigger n in states[i + 1].told} ::
      n in states[i + 1].told && (n.what.Done? || n.what.Failed?) ==> n in states[i].told
  {
    var s, e := states[i], events[i];
    assert Enabled(s, e) && states[i + 1] == Next(s, e);
    if AboutSockets(e) {
      SocketEventSpares(s, e);
    } else {
      hide WsEnded;
      hide Connect;
      hide WsOpen;
      hide Receive;
      hide Established;
      hide Killed;
    }
  }

  // ---- the outcome of a request -------------------------------------------------------------------

  /** Nothing went wrong with the request before the i-th event. */
  ghost predicate Unblamed(events: seq<Event>, i: nat, id: nat)
    requires i <= |events|
  {
    forall j: nat :: j < i ==> !Blames(events[..i], j, id)
  }

  /** The i-th event is the response's completion, with nothing wrong before it. */
  ghost predicate Succeeds(events: seq<Event>, i: nat, id: nat) {
    i < |events| && events[i] == ReqCompleted(id) && !Completes(events[..i], id) && Unblamed(events, i, id)
  }

  /** The i-th event is a bad or stillborn fetch, or an end that comes too early or after something went wrong. */
  ghost predicate Fails(states: seq<State>, events: seq<Event>, i: nat, id: nat)
    requires |states| == |events| + 1
  {
    && i < |events|
    && if events[i].DoFetch? then
         states[i].nextId == id && (events[i].bad != [] || events[i].outcome.NotStarted?)
       else
         Ends(events[i], id) && !Completes(events[..i], id)
         && (events[i].ReqDestroyed? || !Unblamed(events, i, id))
  }

  lemma {:induction false} MessagesAreThere(states: seq<State>, events: seq<Event>, i: nat)
    requires IsRun(states, events) && i <= |events|
    ensures forall j :: 0 <= j < |events[..i]| && events[..i][j].ReqError? ==> events[..i][j].msg != []
  {
    forall j | 0 <= j < i && events[j].ReqError? ensures events[j].msg != [] {
      assert Enabled(states[j], events[j]);
    }
  }

  lemma UnblamedExactly(states: seq<State>, events: seq<Event>, i: nat, id: nat)
    requires IsRun(states, events) && i <= |events|
    ensures ErrorText(events[..i], id) == [] <==> Unblamed(events, i, id)
  {
    MessagesAreThere(states, events, i);
    ErrorTextExactly(events[..i], id);
  }

  ghost predicate DoneReason(events: seq<Event>, k: nat, n: Note) {
    exists i :: 0 <= i < k && Succeeds(events, i, n.target) && n.bytes == BodyOf(events[..i], n.target)
  }

  ghost predicate FailedReason(states: seq<State>, events: seq<Event>, k: nat, n: Note)
    requires |states| == |events| + 1
  {
    exists i :: 0 <= i < k && Fails(states, events, i, n.target)
  }

  /** Every outcome told so far has its reason. */
  ghost predicate AllReasoned(states: seq<State>, events: seq<Event>, k: nat)
    requires |states| == |events| + 1 && k < |states|
  {
    forall n {:trigger n in states[k].told} | n in states[k].told ::
      && (n.what.Done? ==> DoneReason(events, k, n))
      && (n.what.Failed? ==> FailedReason(states, events, k, n))
  }

  lemma LaterReasoned(states: seq<State>, events: seq<Event>, k: nat, n: Note)
    requires |states| == |events| + 1
    ensures DoneReason(events, k, n) ==> DoneReason(events, k + 1, n)
    ensures FailedReason(states, events, k, n) ==> FailedReason(states, events, k + 1, n)
  {
  }

  lemma StepReasons(states: seq<State>, events: seq<Event>, k: nat)
    requires IsRun(states, events) && k < |events| && AllReasoned(states, events, k)
    ensures AllReasoned(states, events, k + 1)
  {
    var s, t, e := states[k], states[k + 1], events[k];
    hide IsRun;
    forall n {:trigger n in t.told} | n in t.told
      ensures n.what.Done? ==> DoneReason(events, k + 1, n)
      ensures n.what.Failed? ==> FailedReason(states, events, k + 1, n)
    {
      LaterReasoned(states, events, k, n);
      if n !in s.told && (n.what.Done? || n.what.Failed?) {
        if e.DoFetch? {
          FetchTells(states, events, k);
          assert Fails(states, events, k, n.target);
        } else if e.ReqCompleted? || e.ReqDestroyed? {
          var c := EndTells(states, events, k, e.id);
          UnblamedExactly(states, events, k, e.id);
          assert n.what.Done? ==> Succeeds(events, k, n.target) && n.bytes == BodyOf(events[..k], n.target);
          assert n.what.Failed? ==> Fails(states, events, k, n.target);
        } else {
          OthersTellNothing(states, events, k);
        }
      }
    }
  }

  lemma {:induction false} OutcomesHaveReasons(states: seq<State>, events: seq<Event>, k: nat)
    requires IsRun(states, events) && k < |states|
    ensures AllReasoned(states, events, k)
  {
    if k > 0 {
      OutcomesHaveReasons(states, events, k - 1);
      StepReasons(states, events, k - 1);
    }
  }

  // ---- and every reason its outcome ----------------------------------------------------------------

  lemma {:induction false} RunNumbersRise(states: seq<State>, events: seq<Event>, a: nat, b: nat)
    requires IsRun(states, events) && a <= b < |states|
    ensures states[a].nextId <= states[b].nextId && states[a].told <= states[b].told
    decreases b
  {
    hide Next;
    hide Enabled;
    if a < b {
      RunNumbersRise(states, events, a, b - 1);
      assert Enabled(states[b - 1], events[b - 1]) && states[b] == Next(states[b - 1], events[b - 1]);
      NumbersRise(states[b - 1], events[b - 1]);
    }
  }

  /** A number is given to one fetch only. */
  lemma FetchedOnce(states: seq<State>, events: seq<Event>, a: nat, b: nat)
    requires IsRun(states, events) && a < |events| && b < |events| && events[a].DoFetch? && events[b].DoFetch?
    requires states[a].nextId == states[b].nextId
    ensures a == b
  {
    var x, y := if a < b then a else b, if a < b then b else a;
    if x < y {
      assert Enabled(states[x], events[x]) && states[x + 1] == Next(states[x], events[x]);
      NumbersRise(states[x], events[x]);
      RunNumbersRise(states, events, x + 1, y);
    }
  }

  lemma StaysTold(was: seq<Note>, told: seq<Note>, later: seq<Note>, n: Note)
    requires told == was + [n] && told <= later
    ensures n in later
  {
    assert later[|was|] == told[|was|] == n;
  }

  /** A success within the level of its fetch is told, with the body's bytes, to a script that hears it. */
  lemma SuccessIsTold(states: seq<State>, events: seq<Event>, c: nat, i: nat, k: nat, id: nat)
    requires IsRun(states, events) && c < i < k < |states| && Succeeds(events, i, id)
    requires events[c].DoFetch? && states[c].nextId == id && events[c].hasDone && states[c].gen == states[i].gen
    ensures Note(id, Done, BodyOf(events[..i], id), states[i].gen) in states[k].told
  {
    var m := EndTells(states, events, i, id);
    FetchedOnce(states, events, c, m);
    UnblamedExactly(states, events, i, id);
    RunNumbersRise(states, events, i + 1, k);
    hide IsRun;
    hide Unblamed;
    var n := Note(id, Done, BodyOf(events[..i], id), states[i].gen);
    StaysTold(states[i].told, states[i + 1].told, states[k].told, n);
  }

  /** So is a failure, with its message. */
  lemma FailureIsTold(states: seq<State>, events: seq<Event>, c: nat, i: nat, k: nat, id: nat)
    requires IsRun(states, events) && c <= i < k < |states| && Fails(states, events, i, id)
    requires events[c].DoFetch? && states[c].nextId == id && events[c].hasError && states[c].gen == states[i].gen
    ensures var text := if i == c then Refusal(events[c]) else LastWord(ErrorText(events[..i], id));
            Note(id, Failed, |text|, states[i].gen) in states[k].told
  {
    var text := if i == c then Refusal(events[c]) else LastWord(ErrorText(events[..i], id));
    RunNumbersRise(states, events, i + 1, k);
    if events[i].DoFetch? {
      FetchedOnce(states, events, c, i);
      FetchTells(states, events, i);
    } else {
      var m := EndTells(states, events, i, id);
      FetchedOnce(states, events, c, m);
      UnblamedExactly(states, events, i, id);
    }
    hide IsRun;
    hide Unblamed;
    hide Completes;
    StaysTold(states[i].told, states[i + 1].told, states[k].told, Note(id, Failed, |text|, states[i].gen));
  }
}
